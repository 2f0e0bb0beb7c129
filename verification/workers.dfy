/**
  The worker list page (`js/worker.js`, `controllers/worker.js`): grouping
  review ratings by worker, the per-worker average, the avatar initials,
  the name/availability filter with the rating sort, and the card list.
 */
module Workers {

  import opened Common
  import opened Model
  import Rating
  import Text
  import Utils

  /** A string made of spaces only (including the empty string). */
  predicate Blank(s: string)
  {
    forall k :: 0 <= k < |s| ==> s[k] == ' '
  }

  /** Index of the first character that is not a space. */
  function FirstNonBlank(s: string): (k: nat)
    requires !Blank(s)
    ensures k < |s| && s[k] != ' '
    ensures forall j :: 0 <= j < k ==> s[j] == ' '
  {
    if s[0] != ' ' then 0
    else
      assert !Blank(s[1..]) by {
        var k :| 0 <= k < |s| && s[k] != ' ';
        assert s[1..][k - 1] == s[k];
      }
      1 + FirstNonBlank(s[1..])
  }

  /** `words.map(w => w[0]).join('')`: an empty word gives `undefined`, which joins as nothing. */
  function FirstChars(words: seq<string>): (r: string)
    ensures |r| <= |words|
  {
    if |words| == 0 then "" else (if words[0] == "" then "" else [words[0][0]]) + FirstChars(words[1..])
  }

  lemma {:induction false} FirstCharsOfSplit(s: string)
    ensures FirstChars(Text.Split(s, ' ')) == "" <==> Blank(s)
    ensures !Blank(s) ==> FirstChars(Text.Split(s, ' '))[0] == s[FirstNonBlank(s)]
    decreases |s|
  {
    if s == [] {
      assert Text.Split(s, ' ') == [s];
    } else if s[0] == ' ' {
      SplitLeadingSpace(s);
      FirstCharsOfSplit(s[1..]);
      BlankTail(s);
    } else {
      SplitLeadingWord(s);
    }
  }

  lemma SplitLeadingSpace(s: string)
    requires s != [] && s[0] == ' '
    ensures FirstChars(Text.Split(s, ' ')) == FirstChars(Text.Split(s[1..], ' '))
  {
    var parts := Text.Split(s, ' ');
    assert Text.IndexOf(s, ' ') == Some(0);
    Text.SplitSome(s, ' ', 0);
    assert parts[0] == "" && parts[1..] == Text.Split(s[1..], ' ');
  }

  lemma SplitLeadingWord(s: string)
    requires s != [] && s[0] != ' '
    ensures !Blank(s) && FirstNonBlank(s) == 0
    ensures FirstChars(Text.Split(s, ' ')) != "" && FirstChars(Text.Split(s, ' '))[0] == s[0]
  {
    var parts := Text.Split(s, ' ');
    assert parts[0] != "" && parts[0][0] == s[0] by {
      match Text.IndexOf(s, ' ')
      case None =>
      case Some(k) =>
        Text.SplitSome(s, ' ', k);
    }
  }

  lemma BlankTail(s: string)
    requires s != [] && s[0] == ' '
    ensures Blank(s) <==> Blank(s[1..])
    ensures !Blank(s) ==> s[FirstNonBlank(s)] == s[1..][FirstNonBlank(s[1..])]
  {
    forall k | 0 <= k < |s| - 1 ensures s[1..][k] == s[k + 1] {}
  }

  /**
    The avatar text: the first character of each space-separated word of
    the name, cut to two, or "?" when the name is missing or gives nothing.
   */
  function Initials(name: Option<string>): (r: string)
    ensures 1 <= |r| <= 2
    ensures name.None? ==> r == "?"
    ensures name.Some? && Blank(name.value) ==> r == "?"
    ensures name.Some? && !Blank(name.value) ==> r[0] == name.value[FirstNonBlank(name.value)]
  {
    match name
    case None => "?"
    case Some(n) =>
      FirstCharsOfSplit(n);
      var s := FirstChars(Text.Split(n, ' '));
      var t := if |s| <= 2 then s else s[..2];
      if t == "" then "?" else t
  }

  /** A two-word name shows the first letter of each word. */
  lemma TwoWordInitials(a: string, b: string)
    requires a != "" && b != "" && !(' ' in a) && !(' ' in b)
    ensures Initials(Some(a + " " + b)) == [a[0], b[0]]
  {
    Text.SplitOnce(a, ' ', b);
    assert a + " " + b == a + [' '] + b;
    var parts := [a, b];
    assert parts[1..] == [b];
    assert FirstChars(parts) == [a[0]] + FirstChars([b]);
    assert [b][1..] == [];
  }

  /** Does review `r` count towards worker `w`: it carries that id and a rating. */
  function RatedFor(w: string): Review -> bool
  {
    (r: Review) => r.workerId == w && r.rating.Some?
  }

  /** The reviews `js/worker.js` counts for worker `w`, in query order. */
  function RatedReviews(rs: seq<Review>, w: string): seq<Review>
  {
    Filter(rs, RatedFor(w))
  }

  /** One `ratingsMap` entry. */
  datatype Entry = Entry(total: nat, count: nat)

  /** The sum of the ratings counted for `w`, folded like the grouping loop. */
  function TotalFor(rs: seq<Review>, w: string): nat
  {
    if |rs| == 0 then 0
    else TotalFor(rs[..|rs| - 1], w) + (if RatedFor(w)(rs[|rs| - 1]) then rs[|rs| - 1].rating.value else 0)
  }

  function CountFor(rs: seq<Review>, w: string): nat
  {
    if |rs| == 0 then 0 else CountFor(rs[..|rs| - 1], w) + (if RatedFor(w)(rs[|rs| - 1]) then 1 else 0)
  }

  lemma {:induction false} NoCountNoTotal(rs: seq<Review>, w: string)
    requires CountFor(rs, w) == 0
    ensures TotalFor(rs, w) == 0
    decreases |rs|
  {
    if |rs| > 0 {
      NoCountNoTotal(rs[..|rs| - 1], w);
    }
  }

  lemma RatedSnoc(rs: seq<Review>, r: Review, w: string)
    ensures RatedReviews(rs + [r], w) == RatedReviews(rs, w) + (if RatedFor(w)(r) then [r] else [])
  {
    assert (rs + [r])[..|rs|] == rs;
    assert (rs + [r])[|rs|] == r;
  }

  /** The folded totals are the sum and the number of the reviews counted for `w`. */
  lemma FoldIsRated(rs: seq<Review>, w: string)
    ensures TotalFor(rs, w) == Sum(Utils.RatingsOrZero(RatedReviews(rs, w)))
    ensures CountFor(rs, w) == |RatedReviews(rs, w)|
  {
    FoldTotal(rs, w);
    FoldCount(rs, w);
  }

  lemma {:induction false} FoldTotal(rs: seq<Review>, w: string)
    ensures TotalFor(rs, w) == Sum(Utils.RatingsOrZero(RatedReviews(rs, w)))
    decreases |rs|
  {
    if |rs| > 0 {
      var init, r := rs[..|rs| - 1], rs[|rs| - 1];
      FoldTotal(init, w);
      assert rs == init + [r];
      RatedSnoc(init, r, w);
      var xs := RatedReviews(init, w);
      if RatedFor(w)(r) {
        assert RatedReviews(rs, w) == xs + [r];
        Utils.RatingsOrZeroSnoc(xs, r);
        SumSnoc(Utils.RatingsOrZero(xs), r.rating.value);
      } else {
        assert RatedReviews(rs, w) == xs;
      }
    }
  }

  lemma SumSnoc(ys: seq<nat>, x: nat)
    ensures Sum(ys + [x]) == Sum(ys) + x
  {
    assert (ys + [x])[..|ys|] == ys;
  }

  lemma {:induction false} FoldCount(rs: seq<Review>, w: string)
    ensures CountFor(rs, w) == |RatedReviews(rs, w)|
    decreases |rs|
  {
    if |rs| > 0 {
      var init, r := rs[..|rs| - 1], rs[|rs| - 1];
      FoldCount(init, w);
      assert rs == init + [r];
      RatedSnoc(init, r, w);
    }
  }

  /**
    The grouping loop of `loadWorkers`: a review with a null rating is
    skipped; any other adds its rating and one to its worker's entry,
    which is created on first use.
   */
  method GroupRatings(rs: seq<Review>) returns (m: map<string, Entry>)
    ensures forall w :: w in m <==> CountFor(rs, w) > 0
    ensures forall w :: w in m ==> m[w] == Entry(TotalFor(rs, w), CountFor(rs, w))
  {
    m := map[];
    var i := 0;
    while i < |rs|
      invariant 0 <= i <= |rs|
      invariant forall w :: w in m <==> CountFor(rs[..i], w) > 0
      invariant forall w :: w in m ==> m[w] == Entry(TotalFor(rs[..i], w), CountFor(rs[..i], w))
    {
      var r := rs[i];
      assert rs[..i + 1][..i] == rs[..i] && rs[..i + 1][i] == r;
      if r.rating.Some? {
        if r.workerId !in m {
          NoCountNoTotal(rs[..i], r.workerId);
        }
        var e := if r.workerId in m then m[r.workerId] else Entry(0, 0);
        m := m[r.workerId := Entry(e.total + r.rating.value, e.count + 1)];
      }
      i := i + 1;
    }
    assert rs[..i] == rs;
  }

  /** The reference average of a worker: the shared list average over the reviews counted for it. */
  function WorkerAverage(rs: seq<Review>, w: string): string
  {
    Utils.CalculateAverageRating(Some(RatedReviews(rs, w)))
  }

  /** A review without a rating, or for another worker, leaves a worker's average as it was. */
  lemma IgnoredReviewKeepsAverage(rs: seq<Review>, r: Review, w: string)
    requires r.workerId != w || r.rating.None?
    ensures WorkerAverage(rs + [r], w) == WorkerAverage(rs, w)
  {
    RatedSnoc(rs, r, w);
    assert RatedReviews(rs, w) + [] == RatedReviews(rs, w);
  }

  /** The entry the grouping loop leaves for `w` (or an empty one) gives the reference average. */
  lemma EntryAverage(rs: seq<Review>, w: string, e: Entry)
    requires e == Entry(TotalFor(rs, w), CountFor(rs, w)) || (CountFor(rs, w) == 0 && e == Entry(0, 0))
    ensures Rating.FromTotals(e.total, e.count) == WorkerAverage(rs, w)
  {
    Utils.AverageAgreesWithTotals(RatedReviews(rs, w));
    FoldIsRated(rs, w);
    if CountFor(rs, w) == 0 {
      NoCountNoTotal(rs, w);
    }
  }

  /** A worker document as the query returns it. */
  datatype WorkerDoc = WorkerDoc(id: string, name: Option<string>, location: string, isAvailable: Option<bool>)

  /** An `allWorkers` entry. */
  datatype Worker = Worker(id: string, name: Option<string>, location: string, isAvailable: Option<bool>, actualRating: string)

  /**
    `allWorkers` in `loadWorkers`: one entry per worker document, in query
    order, with the document's fields and the average of its counted reviews.
   */
  method LoadWorkers(docs: seq<WorkerDoc>, rs: seq<Review>) returns (ws: seq<Worker>)
    ensures |ws| == |docs|
    ensures forall i :: 0 <= i < |docs| ==>
      && ws[i].id == docs[i].id && ws[i].name == docs[i].name
      && ws[i].location == docs[i].location && ws[i].isAvailable == docs[i].isAvailable
      && ws[i].actualRating == WorkerAverage(rs, docs[i].id)
  {
    var m := GroupRatings(rs);
    ws := [];
    var i := 0;
    while i < |docs|
      invariant 0 <= i <= |docs| && |ws| == i
      invariant forall j :: 0 <= j < i ==>
        && ws[j].id == docs[j].id && ws[j].name == docs[j].name
        && ws[j].location == docs[j].location && ws[j].isAvailable == docs[j].isAvailable
        && ws[j].actualRating == WorkerAverage(rs, docs[j].id)
    {
      var d := docs[i];
      var e := if d.id in m then m[d.id] else Entry(0, 0);
      EntryAverage(rs, d.id, e);
      ws := ws + [Worker(d.id, d.name, d.location, d.isAvailable, Rating.FromTotals(e.total, e.count))];
      i := i + 1;
    }
  }

  /** `toLowerCase` through an abstract per-character map. */
  function LowerText(lower: char -> char, s: string): (r: string)
    ensures |r| == |s| && forall i :: 0 <= i < |s| ==> r[i] == lower(s[i])
  {
    seq(|s|, i requires 0 <= i < |s| => lower(s[i]))
  }

  function NameMatches(lower: char -> char, term: string): Worker -> bool
  {
    (w: Worker) => w.name.Some? && Text.Contains(LowerText(lower, w.name.value), term)
  }

  /** `w.isAvailable === wanted`: a worker without the field matches neither choice. */
  function AvailableIs(wanted: bool): Worker -> bool
  {
    (w: Worker) => w.isAvailable == Some(wanted)
  }

  /** The one-pass reference for both filters; an empty control keeps everyone. */
  function Keeps(lower: char -> char, rawTerm: string, availability: string): Worker -> bool
  {
    (w: Worker) =>
      (rawTerm == "" || NameMatches(lower, LowerText(lower, rawTerm))(w)) &&
      (availability == "" || AvailableIs(availability == "true")(w))
  }

  function Selected(ws: seq<Worker>, lower: char -> char, rawTerm: string, availability: string): seq<Worker>
  {
    Filter(ws, Keeps(lower, rawTerm, availability))
  }

  /** The two filter passes of `applyFilters`, in the page's order. */
  function FilterSteps(ws: seq<Worker>, lower: char -> char, rawTerm: string, availability: string): seq<Worker>
  {
    var term := LowerText(lower, rawTerm);
    var named := if term != "" then Filter(ws, NameMatches(lower, term)) else ws;
    if availability != "" then Filter(named, AvailableIs(availability == "true")) else named
  }

  lemma FilterStepsAreSelected(ws: seq<Worker>, lower: char -> char, rawTerm: string, availability: string)
    ensures FilterSteps(ws, lower, rawTerm, availability) == Selected(ws, lower, rawTerm, availability)
  {
    var term := LowerText(lower, rawTerm);
    var keep := Keeps(lower, rawTerm, availability);
    var byName, byAvail := NameMatches(lower, term), AvailableIs(availability == "true");
    if rawTerm != "" && availability != "" {
      FilterFilter(ws, byName, byAvail);
      FilterExt(ws, And(byName, byAvail), keep);
    } else if rawTerm != "" {
      FilterExt(ws, byName, keep);
    } else if availability != "" {
      FilterExt(ws, byAvail, keep);
    } else {
      FilterAll(ws, keep);
    }
  }

  /** A worker is selected exactly when it passes both active controls. */
  lemma SelectedMembership(ws: seq<Worker>, lower: char -> char, rawTerm: string, availability: string, w: Worker)
    ensures w in Selected(ws, lower, rawTerm, availability) <==> w in ws && Keeps(lower, rawTerm, availability)(w)
  {
    var s := Selected(ws, lower, rawTerm, availability);
    if w in s {
      var i :| 0 <= i < |s| && s[i] == w;
    }
    if w in ws && Keeps(lower, rawTerm, availability)(w) {
      var i :| 0 <= i < |ws| && ws[i] == w;
    }
  }

  /** The sort key: `actualRating` read as a number, in tenths. */
  function Key(w: Worker): nat
  {
    Rating.ParseShown(w.actualRating).GetOr(0)
  }

  predicate InOrder(a: Worker, b: Worker, desc: bool)
  {
    if desc then Key(a) >= Key(b) else Key(a) <= Key(b)
  }

  predicate Ordered(s: seq<Worker>, desc: bool)
  {
    forall i, j :: 0 <= i < j < |s| ==> InOrder(s[i], s[j], desc)
  }

  /** Inserts `x` after every element it does not strictly precede, which keeps ties in arrival order. */
  function Insert(s: seq<Worker>, x: Worker, desc: bool): (r: seq<Worker>)
    requires Ordered(s, desc)
    ensures |r| == |s| + 1 && multiset(r) == multiset(s) + multiset{x}
    ensures Ordered(r, desc)
  {
    if s == [] then [x]
    else if !InOrder(s[0], x, desc) then
      PrecedesAll(x, s, desc);
      ConsOrdered(x, s, desc);
      [x] + s
    else
      OrderedTail(s, desc);
      var rest := Insert(s[1..], x, desc);
      assert s == [s[0]] + s[1..];
      HeadPrecedes(s[0], s[1..], x, rest, desc);
      ConsOrdered(s[0], rest, desc);
      [s[0]] + rest
  }

  lemma OrderedTail(s: seq<Worker>, desc: bool)
    requires s != [] && Ordered(s, desc)
    ensures Ordered(s[1..], desc)
    ensures forall k :: 0 <= k < |s[1..]| ==> InOrder(s[0], s[1..][k], desc)
  {
    forall i, j | 0 <= i < j < |s[1..]| ensures InOrder(s[1..][i], s[1..][j], desc) {
      assert s[1..][i] == s[i + 1] && s[1..][j] == s[j + 1];
    }
    forall k | 0 <= k < |s[1..]| ensures InOrder(s[0], s[1..][k], desc) {
      assert s[1..][k] == s[k + 1];
    }
  }

  /** An element in order before every element of an ordered list can head it. */
  lemma ConsOrdered(h: Worker, t: seq<Worker>, desc: bool)
    requires Ordered(t, desc)
    requires forall k :: 0 <= k < |t| ==> InOrder(h, t[k], desc)
    ensures Ordered([h] + t, desc)
  {
    var r := [h] + t;
    forall i, j | 0 <= i < j < |r| ensures InOrder(r[i], r[j], desc) {
      if i == 0 {
        assert r[j] == t[j - 1];
      } else {
        assert r[i] == t[i - 1] && r[j] == t[j - 1];
      }
    }
  }

  /** What the head of an ordered list does not precede precedes the whole list. */
  lemma PrecedesAll(x: Worker, s: seq<Worker>, desc: bool)
    requires s != [] && Ordered(s, desc) && !InOrder(s[0], x, desc)
    ensures forall k :: 0 <= k < |s| ==> InOrder(x, s[k], desc)
  {
    forall k | 0 <= k < |s| ensures InOrder(x, s[k], desc) {
      if k > 0 {
        assert InOrder(s[0], s[k], desc);
      }
    }
  }

  lemma HeadPrecedes(h: Worker, t: seq<Worker>, x: Worker, rest: seq<Worker>, desc: bool)
    requires forall k :: 0 <= k < |t| ==> InOrder(h, t[k], desc)
    requires InOrder(h, x, desc)
    requires multiset(rest) == multiset(t) + multiset{x}
    ensures forall k :: 0 <= k < |rest| ==> InOrder(h, rest[k], desc)
  {
    forall k | 0 <= k < |rest| ensures InOrder(h, rest[k], desc) {
      assert rest[k] in multiset(rest);
      if rest[k] != x {
        assert rest[k] in t;
        var j :| 0 <= j < |t| && t[j] == rest[k];
      }
    }
  }

  /** `Array.prototype.sort` with the rating comparator: stable, by key. */
  function SortByKey(s: seq<Worker>, desc: bool): (r: seq<Worker>)
    ensures |r| == |s| && multiset(r) == multiset(s)
    ensures Ordered(r, desc)
  {
    if s == [] then []
    else
      assert s == s[..|s| - 1] + [s[|s| - 1]];
      Insert(SortByKey(s[..|s| - 1], desc), s[|s| - 1], desc)
  }

  /**
    `applyFilters`. `None` when a name filter meets a worker without a name,
    where `toLowerCase` throws and the list is not redrawn.
   */
  function ApplyFilters(ws: seq<Worker>, lower: char -> char, rawTerm: string, sort: string, availability: string)
    : (r: Option<seq<Worker>>)
    ensures r.None? <==> rawTerm != "" && exists i :: 0 <= i < |ws| && ws[i].name.None?
    ensures r.Some? ==> multiset(r.value) == multiset(Selected(ws, lower, rawTerm, availability))
    ensures r.Some? && sort == "high" ==> Ordered(r.value, true)
    ensures r.Some? && sort == "low" ==> Ordered(r.value, false)
    ensures r.Some? && sort != "high" && sort != "low" ==> r.value == Selected(ws, lower, rawTerm, availability)
  {
    if rawTerm != "" && exists i :: 0 <= i < |ws| && ws[i].name.None? then None
    else
      FilterStepsAreSelected(ws, lower, rawTerm, availability);
      var kept := FilterSteps(ws, lower, rawTerm, availability);
      Some(if sort == "high" then SortByKey(kept, true) else if sort == "low" then SortByKey(kept, false) else kept)
  }

  /** With every control empty the full list is shown in its loaded order. */
  lemma EmptyControlsKeepAll(ws: seq<Worker>, lower: char -> char, sort: string)
    requires sort != "high" && sort != "low"
    ensures ApplyFilters(ws, lower, "", sort, "") == Some(ws)
  {
    FilterAll(ws, Keeps(lower, "", ""));
  }

  /** A worker card: avatar text, rating text and whether the book button is enabled. */
  datatype WorkerCard = WorkerCard(id: string, initials: string, ratingText: string, canBook: bool)

  function CardFor(w: Worker): (c: WorkerCard)
    ensures c.id == w.id && c.initials == Initials(w.name)
    ensures c.ratingText == OrElse(w.actualRating, Rating.Zero)
    ensures c.canBook <==> w.isAvailable == Some(true)
  {
    WorkerCard(w.id, Initials(w.name), OrElse(w.actualRating, Rating.Zero), w.isAvailable == Some(true))
  }

  /** The list area: whether the empty state shows, whether the grid shows, and the cards. */
  datatype ListView = ListView(emptyShown: bool, gridShown: bool, cards: seq<WorkerCard>)

  function Cards(ws: seq<Worker>): (cs: seq<WorkerCard>)
    ensures |cs| == |ws| && forall i :: 0 <= i < |ws| ==> cs[i] == CardFor(ws[i])
  {
    seq(|ws|, i requires 0 <= i < |ws| => CardFor(ws[i]))
  }

  /**
    `displayWorkers` of `js/worker.js`: an empty list clears the grid and
    shows the empty state; otherwise one card per worker, in order.
   */
  function DisplayWorkers(ws: seq<Worker>): (v: ListView)
    ensures v.emptyShown <==> |ws| == 0
    ensures v.gridShown && |v.cards| == |ws|
    ensures forall i :: 0 <= i < |ws| ==> v.cards[i] == CardFor(ws[i])
  {
    ListView(|ws| == 0, true, Cards(ws))
  }

  /**
    `displayWorkers` of `controllers/worker.js`: an empty list shows the
    empty state, hides the grid and renders no card.
   */
  function DisplayWorkersHiding(ws: seq<Worker>): (v: ListView)
    ensures |ws| == 0 ==> v == ListView(true, false, [])
    ensures |ws| > 0 ==> !v.emptyShown && v.gridShown && |v.cards| == |ws|
    ensures forall i :: 0 <= i < |v.cards| ==> v.cards[i] == CardFor(ws[i])
  {
    if |ws| == 0 then ListView(true, false, []) else ListView(false, true, Cards(ws))
  }

  /** The two pages agree on every non-empty list. */
  lemma DisplaysAgree(ws: seq<Worker>)
    ensures |ws| > 0 ==> DisplayWorkersHiding(ws) == DisplayWorkers(ws)
    ensures |ws| == 0 ==> DisplayWorkersHiding(ws).cards == DisplayWorkers(ws).cards
  {
  }

  /** `showWorkersSkeleton(container, 0)`: the grid is emptied and nothing is shown or hidden. */
  function ClearGrid(v: ListView): (r: ListView)
    ensures r.cards == []
    ensures r.emptyShown == v.emptyShown && r.gridShown == v.gridShown
  {
    v.(cards := [])
  }

  /**
    The list area after a successful `loadWorkers` of
    `controllers/worker.js` as written: `displayWorkers` renders the list,
    then the `finally` block calls `showWorkersSkeleton(container, 0)`,
    which empties the grid again.
   */
  function LoadWorkersViewAsWritten(ws: seq<Worker>): (v: ListView)
    ensures v.emptyShown <==> |ws| == 0
    ensures v.gridShown <==> |ws| > 0
    ensures v.cards == []
  {
    ClearGrid(DisplayWorkersHiding(ws))
  }

  /**
    The intended list area after a successful load: `displayWorkers` has
    already replaced the skeleton, so nothing clears the grid afterwards
    and one card per worker stays, in order.
   */
  function LoadWorkersView(ws: seq<Worker>): (v: ListView)
    ensures v.emptyShown <==> |ws| == 0
    ensures v.gridShown <==> |ws| > 0
    ensures |v.cards| == |ws| && forall i :: 0 <= i < |ws| ==> v.cards[i] == CardFor(ws[i])
  {
    DisplayWorkersHiding(ws)
  }

  /**
    The intended controller page ends a load where `js/worker.js`, which has
    no `finally`, ends it: the view `displayWorkers` draws.
   */
  lemma LoadedPagesAgree(ws: seq<Worker>)
    ensures |ws| > 0 ==> LoadWorkersView(ws) == DisplayWorkers(ws)
    ensures LoadWorkersView(ws).cards == DisplayWorkers(ws).cards
  {
  }

  /** As written the controller page shows the grid with no card in it for every non-empty list. */
  lemma LoadedCardsClearedAsWritten(ws: seq<Worker>)
    requires |ws| > 0
    ensures LoadWorkersViewAsWritten(ws).gridShown && LoadWorkersViewAsWritten(ws).cards == []
    ensures LoadWorkersViewAsWritten(ws) != LoadWorkersView(ws)
  {
  }

  /**
    The rating loop of `controllers/worker.js`. `results[i]` is `None` when
    reading worker `i`'s rating documents fails, else their `average`
    fields; a failure gives that worker "0.0" and the loop goes on.
   */
  method RatingsWithFallback(results: seq<Option<seq<nat>>>) returns (texts: seq<string>)
    ensures |texts| == |results|
    ensures forall i :: 0 <= i < |results| && (results[i].None? || results[i].value == []) ==> texts[i] == Rating.Zero
    ensures forall i :: 0 <= i < |results| && results[i].Some? && results[i].value != [] ==>
      Rating.ParseShown(texts[i]) == Some(Rating.RoundTenths(Sum(results[i].value), |results[i].value|))
  {
    texts := [];
    var i := 0;
    while i < |results|
      invariant 0 <= i <= |results| && |texts| == i
      invariant forall j :: 0 <= j < i && (results[j].None? || results[j].value == []) ==> texts[j] == Rating.Zero
      invariant forall j :: 0 <= j < i && results[j].Some? && results[j].value != [] ==>
        Rating.ParseShown(texts[j]) == Some(Rating.RoundTenths(Sum(results[j].value), |results[j].value|))
    {
      var text := match results[i]
        case None => Rating.Zero
        case Some(avgs) => Rating.FromTotals(Sum(avgs), |avgs|);
      texts := texts + [text];
      i := i + 1;
    }
  }
}
