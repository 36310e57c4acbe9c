/** Queries over one snapshot of the artifact index (artifact_store/index.py): `latest`, `_previous` and cursor
    pagination. An id is its hexadecimal digest read as a number, so ids compare as their text does; an instant is a
    number of microseconds. */
module ArtifactIndex {
  import opened Results
  import opened Lists
  import B = Base64Url
  import P = ArtifactPublish

  datatype Entry = Entry(kind: P.Kind, id: nat, symbol: string, instant: int)

  datatype Position = Position(instant: int, id: nat)

  function Order(e: Entry): Position {
    Position(e.instant, e.id)
  }

  /** As_of descending, then id ascending. */
  predicate Precedes(e: Entry, o: Entry) {
    e.instant > o.instant || (e.instant == o.instant && e.id < o.id)
  }

  predicate After(p: Position, e: Entry) {
    p.instant > e.instant || (p.instant == e.instant && p.id < e.id)
  }

  /** A list of entries as the index holds it. */
  ghost predicate Ordered(source: seq<Entry>) {
    Chain(source, Precedes)
  }

  // ----------------------------------------------------------------- latest

  datatype Answer = Found(entry: Entry) | NotFound | Ambiguous

  function Eligible(cutoff: Option<int>): Entry -> bool {
    (e: Entry) => cutoff.None? || e.instant <= cutoff.value
  }

  function Latest(candidates: seq<Entry>, cutoff: Option<int>): Answer {
    var eligible := Keep(candidates, Eligible(cutoff));
    if eligible == [] then NotFound
    else
      var tied := Keep(eligible, (e: Entry) => e.instant == eligible[0].instant);
      if |tied| == 1 then Found(tied[0]) else Ambiguous
  }

  /** `e` is a latest candidate at or before the cutoff. */
  ghost predicate IsLatest(candidates: seq<Entry>, cutoff: Option<int>, e: Entry) {
    && e in candidates && (cutoff.Some? ==> e.instant <= cutoff.value)
    && forall o <- candidates :: (cutoff.Some? ==> o.instant <= cutoff.value) ==> o.instant <= e.instant
  }

  lemma EligibleFirst(candidates: seq<Entry>, cutoff: Option<int>)
    requires Ordered(candidates)
    ensures var eligible := Keep(candidates, Eligible(cutoff));
      eligible != [] ==> IsLatest(candidates, cutoff, eligible[0])
  {
    var eligible := Keep(candidates, Eligible(cutoff));
    KeepChain(candidates, Eligible(cutoff), Precedes);
    if eligible != [] {
      KeepMembers(candidates, Eligible(cutoff), eligible[0]);
      forall o | o in candidates && Eligible(cutoff)(o) ensures o.instant <= eligible[0].instant {
        KeepMembers(candidates, Eligible(cutoff), o);
      }
    }
  }

  lemma TiedMeaning(candidates: seq<Entry>, cutoff: Option<int>, e: Entry)
    requires Ordered(candidates)
    requires Keep(candidates, Eligible(cutoff)) != []
    ensures var eligible := Keep(candidates, Eligible(cutoff));
      e in Keep(eligible, (o: Entry) => o.instant == eligible[0].instant) <==> IsLatest(candidates, cutoff, e)
  {
    var eligible := Keep(candidates, Eligible(cutoff));
    EligibleFirst(candidates, cutoff);
    KeepMembers(candidates, Eligible(cutoff), e);
    KeepMembers(eligible, (o: Entry) => o.instant == eligible[0].instant, e);
  }

  /** `latest` finds an entry exactly when it is the only latest one, is ambiguous exactly when two tie, and finds
      nothing exactly when nothing is eligible. */
  lemma LatestMeaning(candidates: seq<Entry>, cutoff: Option<int>)
    requires Ordered(candidates)
    ensures forall e :: Latest(candidates, cutoff) == Found(e) <==>
      IsLatest(candidates, cutoff, e) && forall o :: IsLatest(candidates, cutoff, o) ==> o == e
    ensures Latest(candidates, cutoff) == Ambiguous <==>
      exists e, o :: e != o && IsLatest(candidates, cutoff, e) && IsLatest(candidates, cutoff, o)
    ensures Latest(candidates, cutoff) == NotFound <==>
      forall e <- candidates :: cutoff.Some? && e.instant > cutoff.value
  {
    var eligible := Keep(candidates, Eligible(cutoff));
    if eligible == [] {
      forall e | e in candidates ensures !Eligible(cutoff)(e) { KeepMembers(candidates, Eligible(cutoff), e); }
    } else {
      var tied := Keep(eligible, (o: Entry) => o.instant == eligible[0].instant);
      EligibleFirst(candidates, cutoff);
      forall e ensures e in tied <==> IsLatest(candidates, cutoff, e) { TiedMeaning(candidates, cutoff, e); }
      KeepChain(candidates, Eligible(cutoff), Precedes);
      KeepChain(eligible, (o: Entry) => o.instant == eligible[0].instant, Precedes);
      assert eligible[0] in tied;
      if |tied| > 1 {
        assert Precedes(tied[0], tied[1]) && tied[0] in tied && tied[1] in tied;
      }
    }
  }

  // ----------------------------------------------------------------- the prior report

  datatype Prior = Comparable(entry: Entry) | NoPrior | PriorAmbiguous

  /** `e` is a latest entry strictly before `current`. */
  ghost predicate IsPrior(ordered: seq<Entry>, current: int, e: Entry) {
    e in ordered && e.instant < current && forall o <- ordered :: o.instant < current ==> o.instant <= e.instant
  }

  /** The only latest entry strictly before `current`, that there is none, or that two tie. */
  ghost predicate TellsPrior(ordered: seq<Entry>, current: int, r: Prior) {
    match r
    case Comparable(e) => IsPrior(ordered, current, e) && forall o :: IsPrior(ordered, current, o) ==> o == e
    case NoPrior => forall e <- ordered :: e.instant >= current
    case PriorAmbiguous => exists e, o :: e != o && IsPrior(ordered, current, e) && IsPrior(ordered, current, o)
  }

  /** `_previous`: skip the entries that tie with the given one, then take the next, unless it ties in turn. */
  method Previous(ordered: seq<Entry>, i: nat) returns (r: Prior)
    requires Ordered(ordered) && i < |ordered|
    ensures TellsPrior(ordered, ordered[i].instant, r)
  {
    var current := ordered[i].instant;
    var j := i + 1;
    while j < |ordered| && ordered[j].instant >= current
      invariant i < j <= |ordered|
      invariant forall k :: 0 <= k < j ==> ordered[k].instant >= current
    {
      j := j + 1;
    }
    if j == |ordered| {
      return NoPrior;
    }
    assert ordered[j] in ordered;
    assert IsPrior(ordered, current, ordered[j]);
    if j + 1 < |ordered| && ordered[j + 1].instant == ordered[j].instant {
      assert Precedes(ordered[j], ordered[j + 1]) && IsPrior(ordered, current, ordered[j + 1]);
      return PriorAmbiguous;
    }
    forall o | IsPrior(ordered, current, o) ensures o == ordered[j] {
      var k :| 0 <= k < |ordered| && ordered[k] == o;
      assert k > j ==> Precedes(ordered[j + 1], o) || k == j + 1;
    }
    return Comparable(ordered[j]);
  }

  // ----------------------------------------------------------------- one page

  datatype Window = Window(low: Option<int>, high: Option<int>)

  function Wanted(w: Window, position: Option<Position>): Entry -> bool {
    (e: Entry) =>
      && (w.low.None? || w.low.value <= e.instant)
      && (w.high.None? || e.instant <= w.high.value)
      && (position.None? || After(position.value, e))
  }

  /** A page, and the position after which the next one starts if anything is left. */
  datatype Page = Page(entries: seq<Entry>, next: Option<Position>)

  function PageAt(source: seq<Entry>, w: Window, position: Option<Position>, limit: nat): Page
    requires limit > 0
  {
    var wanted := Keep(source, Wanted(w, position));
    if |wanted| > limit then Page(wanted[..limit], Some(Order(wanted[limit - 1]))) else Page(wanted, None)
  }

  /** `e` lies in the window and, by as_of descending and id ascending, after the position. */
  predicate Asked(w: Window, position: Option<Position>, e: Entry) {
    && (w.low.Some? ==> w.low.value <= e.instant) && (w.high.Some? ==> e.instant <= w.high.value)
    && (position.Some? ==>
      e.instant < position.value.instant || (e.instant == position.value.instant && e.id > position.value.id))
  }

  /** `e` is newer than `o`, or of the same instant with the smaller id. */
  ghost predicate Newer(e: Entry, o: Entry) {
    e.instant > o.instant || (e.instant == o.instant && e.id < o.id)
  }

  /** A page holds the first entries asked for, as many as the limit allows, and goes on exactly if some are left. */
  ghost predicate PageSays(source: seq<Entry>, w: Window, position: Option<Position>, limit: nat, page: Page) {
    && (forall i, j :: 0 <= i < j < |page.entries| ==> Newer(page.entries[i], page.entries[j]))
    && (forall e <- page.entries :: e in source && Asked(w, position, e))
    && (page.next.None? ==>
          |page.entries| <= limit && forall e <- source :: Asked(w, position, e) ==> e in page.entries)
    && (page.next.Some? ==>
          |page.entries| == limit && limit > 0
          && page.next.value == Position(page.entries[limit - 1].instant, page.entries[limit - 1].id)
          && LeavesLater(source, w, position, page.entries))
  }

  /** Something asked for is left, and all of it comes after the page. */
  ghost predicate LeavesLater(source: seq<Entry>, w: Window, position: Option<Position>, entries: seq<Entry>) {
    && (exists e :: e in source && Asked(w, position, e) && e !in entries)
    && forall e <- source, o <- entries :: Asked(w, position, e) && e !in entries ==> Newer(o, e)
  }

  lemma PageMeaning(source: seq<Entry>, w: Window, position: Option<Position>, limit: nat)
    requires Ordered(source) && limit > 0
    ensures PageSays(source, w, position, limit, PageAt(source, w, position, limit))
  {
    var wanted := Keep(source, Wanted(w, position));
    KeepChain(source, Wanted(w, position), Precedes);
    forall e ensures e in wanted <==> e in source && Asked(w, position, e) {
      KeepMembers(source, Wanted(w, position), e);
    }
    if |wanted| > limit {
      var entries := wanted[..limit];
      assert forall e :: e in entries ==> e in wanted;
      forall e, o | e in wanted && e !in entries && o in entries ensures Newer(o, e) {
        var k :| 0 <= k < |wanted| && wanted[k] == e;
        var i :| 0 <= i < limit && entries[i] == o;
        InPrefix(wanted, limit, k);
        assert Precedes(wanted[i], wanted[k]);
      }
      SkippedEntry(wanted, limit);
    }
  }

  lemma InPrefix(wanted: seq<Entry>, limit: nat, k: nat)
    requires k < |wanted| && limit <= |wanted|
    ensures k < limit ==> wanted[k] in wanted[..limit]
  {
    assert k < limit ==> wanted[..limit][k] == wanted[k];
  }

  lemma SkippedEntry(wanted: seq<Entry>, limit: nat)
    requires Ordered(wanted) && limit < |wanted|
    ensures wanted[limit] in wanted && wanted[limit] !in wanted[..limit]
  {
    forall i | 0 <= i < limit ensures wanted[i] != wanted[limit] { assert Precedes(wanted[i], wanted[limit]); }
  }

  /** The page loop: it stops one entry past the limit, which only shows that more is left. */
  method ReadPage(source: seq<Entry>, w: Window, position: Option<Position>, limit: nat) returns (page: Page)
    requires limit > 0
    ensures page == PageAt(source, w, position, limit)
  {
    ghost var all := Keep(source, Wanted(w, position));
    var entries := [];
    var i := 0;
    while i < |source|
      invariant i <= |source| && |entries| <= limit && entries == Keep(source[..i], Wanted(w, position))
      decreases |source| - i
    {
      var entry := source[i];
      assert source[..i + 1][..i] == source[..i];
      i := i + 1;
      if Wanted(w, position)(entry) {
        entries := entries + [entry];
        if |entries| > limit {
          break;
        }
      }
    }
    KeepPrefix(source, Wanted(w, position), i);
    assert i == |source| ==> source[..i] == source;
    assert |entries| > limit ==> entries[..limit] == all[..limit];
    if |entries| > limit {
      page := Page(entries[..limit], Some(Order(entries[limit - 1])));
    } else {
      page := Page(entries, None);
    }
  }

  // ----------------------------------------------------------------- the cursor

  datatype QueryError = InvalidLimit | InvalidWindow | InvalidCursor

  const CURSOR_VERSION := 1
  const MAX_CURSOR_LENGTH := 512
  const DEFAULT_LIMIT := 50
  const MAX_LIMIT := 200

  /** The cursor's JSON body; `s` is the fingerprint of the query it belongs to. */
  datatype Body = Body(v: int, s: string, t: int, i: nat)

  datatype Json = Json(dumps: Body -> seq<B.Byte>, loads: seq<B.Byte> -> Option<Body>)

  function BodyOf(p: Position, scope: string): Body {
    Body(CURSOR_VERSION, scope, p.instant, p.id)
  }

  function EncodeCursor(p: Position, scope: string, json: Json): string {
    B.Encode(json.dumps(BodyOf(p, scope)))
  }

  function DecodeCursor(cursor: string, scope: string, json: Json): Option<Position> {
    if !(0 < |cursor| <= MAX_CURSOR_LENGTH && B.InAlphabet(cursor)) then None
    else
      match B.Decode(cursor)
      case None => None
      case Some(bytes) =>
        match json.loads(bytes)
        case None => None
        case Some(body) => if body.v == CURSOR_VERSION && body.s == scope then Some(Position(body.t, body.i)) else None
  }

  /** The body survives its JSON text, which is short: 147 bytes for a sha256 id, a 16-digit fingerprint and an ISO
      instant. */
  ghost predicate Faithful(json: Json, body: Body) {
    json.loads(json.dumps(body)) == Some(body) && 0 < |json.dumps(body)| <= 384
  }

  /** A cursor decodes to the position it was made from, under its own query only. */
  lemma CursorRoundTrip(p: Position, scope: string, other: string, json: Json)
    requires Faithful(json, BodyOf(p, scope))
    ensures DecodeCursor(EncodeCursor(p, scope, json), other, json) == if other == scope then Some(p) else None
  {
    B.RoundTrip(json.dumps(BodyOf(p, scope)));
  }

  /** A well-formed cursor text is accepted exactly if it is of version 1 and of this query, and then it means the
      position in its body. */
  lemma AcceptedCursor(body: Body, scope: string, json: Json)
    requires Faithful(json, body)
    ensures DecodeCursor(B.Encode(json.dumps(body)), scope, json) ==
      if body.v == 1 && body.s == scope then Some(Position(body.t, body.i)) else None
  {
    B.RoundTrip(json.dumps(body));
  }

  predicate ValidLimit(limit: int) {
    1 <= limit <= MAX_LIMIT
  }

  predicate ValidWindow(w: Window) {
    w.low.None? || w.high.None? || w.low.value <= w.high.value
  }

  predicate ValidQuery(w: Window, limit: Option<int>, cursor: Option<string>, scope: string, json: Json) {
    && (limit.Some? ==> ValidLimit(limit.value))
    && ValidWindow(w)
    && (cursor.Some? ==> DecodeCursor(cursor.value, scope, json).Some?)
  }

  type Reply = Result<(seq<Entry>, Option<string>), QueryError>

  /** The answer to a query: refused for its limit, its window or its cursor, in this order; otherwise one page and the
      cursor of the next. */
  function Respond(source: seq<Entry>, w: Window, limit: Option<int>, cursor: Option<string>, scope: string, json: Json)
    : (r: Reply)
    ensures r.Ok? <==> ValidQuery(w, limit, cursor, scope, json)
  {
    var position := if cursor.None? then None else DecodeCursor(cursor.value, scope, json);
    if limit.Some? && !ValidLimit(limit.value) then Err(InvalidLimit)
    else if !ValidWindow(w) then Err(InvalidWindow)
    else if cursor.Some? && position.None? then Err(InvalidCursor)
    else
      var page := PageAt(source, w, position, if limit.Some? then limit.value else DEFAULT_LIMIT);
      Ok((page.entries, CursorOf(page.next, scope, json)))
  }

  /** Which query is refused with which error, and what the others are told: one page of at most the given number of
      entries, or of 50, with a cursor exactly if more is left. */
  ghost predicate Replies(source: seq<Entry>, w: Window, limit: Option<int>, cursor: Option<string>, scope: string,
                          json: Json, r: Reply) {
    var badLimit := limit.Some? && !(1 <= limit.value <= 200);
    var badWindow := w.low.Some? && w.high.Some? && w.low.value > w.high.value;
    var position := if cursor.None? then None else DecodeCursor(cursor.value, scope, json);
    && (r == Err(InvalidLimit) <==> badLimit)
    && (r == Err(InvalidWindow) <==> !badLimit && badWindow)
    && (r == Err(InvalidCursor) <==> !badLimit && !badWindow && cursor.Some? && position.None?)
    && (r.Ok? ==> GivesPage(source, w, position, if limit.Some? then limit.value else 50, scope, json, r.value))
  }

  ghost predicate GivesPage(source: seq<Entry>, w: Window, position: Option<Position>, limit: int, scope: string,
                            json: Json, given: (seq<Entry>, Option<string>)) {
    limit > 0 && exists next ::
      given.1 == CursorOf(next, scope, json) && PageSays(source, w, position, limit, Page(given.0, next))
  }

  function CursorOf(next: Option<Position>, scope: string, json: Json): Option<string> {
    match next case None => None case Some(p) => Some(EncodeCursor(p, scope, json))
  }

  lemma RespondMeaning(source: seq<Entry>, w: Window, limit: Option<int>, cursor: Option<string>, scope: string,
                       json: Json)
    requires Ordered(source)
    ensures Replies(source, w, limit, cursor, scope, json, Respond(source, w, limit, cursor, scope, json))
  {
    var position := if cursor.None? then None else DecodeCursor(cursor.value, scope, json);
    var size := if limit.Some? then limit.value else DEFAULT_LIMIT;
    if size > 0 { PageMeaning(source, w, position, size); }
  }

  /** `history`, from the raw limit and cursor to the page and the next cursor. */
  method History(source: seq<Entry>, w: Window, limit: Option<int>, cursor: Option<string>, scope: string, json: Json)
    returns (r: Reply)
    ensures r == Respond(source, w, limit, cursor, scope, json)
    ensures Ordered(source) ==> Replies(source, w, limit, cursor, scope, json, r)
  {
    if limit.Some? && !ValidLimit(limit.value) {
      return Err(InvalidLimit);
    }
    if w.low.Some? && w.high.Some? && w.low.value > w.high.value {
      return Err(InvalidWindow);
    }
    var position := None;
    if cursor.Some? {
      position := DecodeCursor(cursor.value, scope, json);
      if position.None? {
        return Err(InvalidCursor);
      }
    }
    var page := ReadPage(source, w, position, if limit.Some? then limit.value else DEFAULT_LIMIT);
    r := Ok((page.entries, CursorOf(page.next, scope, json)));
    if Ordered(source) { RespondMeaning(source, w, limit, cursor, scope, json); }
  }

  // ----------------------------------------------------------------- following the cursors

  /** What a reader holds: everything collected so far, and where the next page starts. */
  datatype Walk = Reading(collected: seq<Entry>, position: Option<Position>) | Complete(collected: seq<Entry>)

  /** One page per snapshot in `sources`, each page with a limit of its own, starting after `start`. */
  function Follow(start: Option<Position>, w: Window, sources: seq<seq<Entry>>, limits: nat -> nat): Walk
    requires forall k :: limits(k) > 0
  {
    if sources == [] then Reading([], start)
    else
      var n := |sources| - 1;
      match Follow(start, w, sources[..n], limits)
      case Complete(collected) => Complete(collected)
      case Reading(collected, position) =>
        var page := PageAt(sources[n], w, position, limits(n));
        if page.next.Some? then Reading(collected + page.entries, page.next) else Complete(collected + page.entries)
  }

  /** Each snapshot is ordered and holds every entry of the one before. */
  ghost predicate Growing(sources: seq<seq<Entry>>) {
    && (forall k :: 0 <= k < |sources| ==> Ordered(sources[k]))
    && forall j, k, e :: 0 <= j <= k < |sources| && e in sources[j] ==> e in sources[k]
  }

  predicate Passed(walk: Walk, e: Entry) {
    walk.Complete? || (walk.position.Some? && !After(walk.position.value, e))
  }

  /** What holds after any number of pages, the last of them read from `source`. */
  ghost predicate GoodWalk(walk: Walk, start: Option<Position>, w: Window, first: seq<Entry>, source: seq<Entry>) {
    && Ordered(walk.collected)
    && (walk.Reading? ==> walk.collected != [] && walk.position == Some(Order(walk.collected[|walk.collected| - 1])))
    && (forall e <- walk.collected :: e in source && Wanted(w, start)(e) && Passed(walk, e))
    && (forall e <- first :: Wanted(w, start)(e) && Passed(walk, e) ==> e in walk.collected)
  }

  /** What a full page leaves for the next ones: exactly the wanted entries past the limit. */
  lemma PageBoundary(wanted: seq<Entry>, limit: nat)
    requires Ordered(wanted) && 0 < limit < |wanted|
    ensures forall e <- wanted :: !After(Order(wanted[limit - 1]), e) <==> e in wanted[..limit]
  {
    var p := Order(wanted[limit - 1]);
    forall k | 0 <= k < |wanted| ensures After(p, wanted[k]) <==> k >= limit {
      assert k < limit - 1 ==> Precedes(wanted[k], wanted[limit - 1]);
      assert k > limit - 1 ==> Precedes(wanted[limit - 1], wanted[k]);
    }
    forall e | e in wanted && !After(p, e) ensures e in wanted[..limit] {
      var k :| 0 <= k < |wanted| && wanted[k] == e;
      assert wanted[..limit][k] == e;
    }
    forall e | e in wanted[..limit] ensures !After(p, e) {
      var k :| 0 <= k < limit && wanted[..limit][k] == e;
      assert wanted[k] == e;
    }
  }

  lemma FirstPage(start: Option<Position>, w: Window, source: seq<Entry>, limit: nat)
    requires limit > 0 && Ordered(source)
    ensures var page := PageAt(source, w, start, limit);
      var walk := if page.next.Some? then Reading(page.entries, page.next) else Complete(page.entries);
      GoodWalk(walk, start, w, source, source)
  {
    var wanted := Keep(source, Wanted(w, start));
    KeepChain(source, Wanted(w, start), Precedes);
    forall e ensures e in wanted <==> e in source && Wanted(w, start)(e) { KeepMembers(source, Wanted(w, start), e); }
    if |wanted| > limit {
      PageBoundary(wanted, limit);
      assert forall e :: e in wanted[..limit] ==> e in wanted;
    }
  }

  function Joined(walk: Walk, more: Walk): Walk {
    if more.Reading? then Reading(walk.collected + more.collected, more.position)
    else Complete(walk.collected + more.collected)
  }

  /** What is wanted after the last collected entry was wanted all along, and comes after everything collected. */
  lemma LaterIsWanted(walk: Walk, start: Option<Position>, w: Window, first: seq<Entry>, source: seq<Entry>, e: Entry)
    requires walk.Reading? && GoodWalk(walk, start, w, first, source) && Wanted(w, walk.position)(e)
    ensures Wanted(w, start)(e) && forall c <- walk.collected :: Precedes(c, e)
  {
    var last := walk.collected[|walk.collected| - 1];
    assert last in walk.collected;
    forall c | c in walk.collected ensures Precedes(c, e) {
      assert Passed(walk, c);
    }
  }

  /** The next page continues where the last one stopped. */
  lemma NextPage(walk: Walk, more: Walk, start: Option<Position>, w: Window, first: seq<Entry>, before: seq<Entry>,
                 source: seq<Entry>)
    requires walk.Reading? && GoodWalk(walk, start, w, first, before) &&
      GoodWalk(more, walk.position, w, source, source)
    requires forall e <- first :: e in source
    requires forall e <- before :: e in source
    ensures GoodWalk(Joined(walk, more), start, w, first, source)
  {
    var joined := Joined(walk, more);
    forall e | e in more.collected ensures Wanted(w, start)(e) && forall c <- walk.collected :: Precedes(c, e) {
      LaterIsWanted(walk, start, w, first, before, e);
    }
    ChainConcat(walk.collected, more.collected, Precedes);
    forall e | e in walk.collected ensures Passed(joined, e) {
      if more.Reading? {
        var last := more.collected[|more.collected| - 1];
        assert last in more.collected && Precedes(e, last);
      }
    }
    forall e | e in first && Wanted(w, start)(e) && Passed(joined, e) ensures e in joined.collected {
      if !Passed(walk, e) { assert Wanted(w, walk.position)(e); }
    }
  }

  lemma {:induction false} FollowKeepsGood(start: Option<Position>, w: Window, sources: seq<seq<Entry>>,
                                           limits: nat -> nat)
    requires (forall k :: limits(k) > 0) && sources != [] && Growing(sources)
    ensures var walk := Follow(start, w, sources, limits);
      && GoodWalk(walk, start, w, sources[0], sources[|sources| - 1])
      && (walk.Reading? ==> |walk.collected| >= |sources|)
  {
    var n := |sources| - 1;
    if n == 0 {
      assert Follow(start, w, sources[..0], limits) == Reading([], start);
      FirstPage(start, w, sources[0], limits(0));
      var page := PageAt(sources[0], w, start, limits(0));
      assert [] + page.entries == page.entries;
    } else {
      var walk := Follow(start, w, sources[..n], limits);
      FollowKeepsGood(start, w, sources[..n], limits);
      if walk.Reading? {
        var page := PageAt(sources[n], w, walk.position, limits(n));
        var more := if page.next.Some? then Reading(page.entries, page.next) else Complete(page.entries);
        FirstPage(walk.position, w, sources[n], limits(n));
        NextPage(walk, more, start, w, sources[0], sources[n - 1], sources[n]);
      }
    }
  }

  // ----------------------------------------------------------------- the main results

  /** While the store grows between pages: what is collected is strictly ordered, hence free of duplicates; every entry
      is a matching one of the latest snapshot; and no entry that was there from the first page on and lies before the
      cursor is missing. When the pages end, none is missing at all. */
  lemma PagingOverAGrowingStore(start: Option<Position>, w: Window, sources: seq<seq<Entry>>, limits: nat -> nat)
    requires (forall k :: limits(k) > 0) && sources != [] && Growing(sources)
    ensures var walk := Follow(start, w, sources, limits);
      && (forall i, j :: 0 <= i < j < |walk.collected| ==> Newer(walk.collected[i], walk.collected[j]))
      && (forall e <- walk.collected :: e in sources[|sources| - 1] && Asked(w, start, e))
      && (forall e <- sources[0] ::
            Asked(w, start, e) && (walk.Complete? || !Asked(Window(None, None), walk.position, e)) ==>
            e in walk.collected)
  {
    FollowKeepsGood(start, w, sources, limits);
    forall e ensures Wanted(w, start)(e) <==> Asked(w, start, e) {}
  }

  /** The pages end: at the latest after as many pages as the latest snapshot has matching entries, and one more. */
  lemma PagingEnds(start: Option<Position>, w: Window, sources: seq<seq<Entry>>, limits: nat -> nat)
    requires (forall k :: limits(k) > 0) && sources != [] && Growing(sources)
    requires |sources| > |Keep(sources[|sources| - 1], (e: Entry) => Asked(w, start, e))|
    ensures Follow(start, w, sources, limits).Complete?
  {
    var walk := Follow(start, w, sources, limits);
    var last := sources[|sources| - 1];
    FollowKeepsGood(start, w, sources, limits);
    forall e | e in walk.collected ensures e in Keep(last, (e: Entry) => Asked(w, start, e)) {
      KeepMembers(last, (e: Entry) => Asked(w, start, e), e);
    }
    ChainFits(walk.collected, Keep(last, (e: Entry) => Asked(w, start, e)), Precedes);
  }

  /** `entries` are exactly the entries of `source` that are asked for, each once, newest first. */
  ghost predicate ExactlyAsked(source: seq<Entry>, w: Window, start: Option<Position>, entries: seq<Entry>) {
    && (forall i, j :: 0 <= i < j < |entries| ==> Newer(entries[i], entries[j]))
    && forall e :: e in entries <==> e in source && Asked(w, start, e)
  }

  /** Over one snapshot, whatever the limits, the pages together are exactly the matching entries, each once, in order.
      */
  lemma PagingIsExact(start: Option<Position>, w: Window, source: seq<Entry>, pages: nat, limits: nat -> nat)
    requires (forall k :: limits(k) > 0) && Ordered(source)
    requires pages > |Keep(source, (e: Entry) => Asked(w, start, e))|
    ensures var walk := Follow(start, w, seq(pages, k => source), limits);
      walk.Complete? && ExactlyAsked(source, w, start, walk.collected)
  {
    var sources := seq(pages, k => source);
    PagingEnds(start, w, sources, limits);
    FollowKeepsGood(start, w, sources, limits);
    forall e ensures Wanted(w, start)(e) <==> Asked(w, start, e) {}
  }

  // ----------------------------------------------------------------- following the cursor texts

  /** A caller of `history` that feeds every returned cursor back. */
  datatype Caller = More(collected: seq<Entry>, cursor: Option<string>) | Ended(collected: seq<Entry>)
                  | Refused(error: QueryError)

  function CallAgain(w: Window, sources: seq<seq<Entry>>, limits: nat -> Option<int>, scope: string,
                     json: Json): Caller {
    if sources == [] then More([], None)
    else
      var n := |sources| - 1;
      match CallAgain(w, sources[..n], limits, scope, json)
      case Refused(error) => Refused(error)
      case Ended(collected) => Ended(collected)
      case More(collected, cursor) =>
        match Respond(sources[n], w, limits(n), cursor, scope, json)
        case Err(error) => Refused(error)
        case Ok((entries, next)) => if next.Some? then More(collected + entries, next) else Ended(collected + entries)
  }

  /** The page lengths behind the given limits. */
  function Lengths(limits: nat -> Option<int>): (lengths: nat -> nat)
    ensures forall k :: lengths(k) > 0
  {
    (k: nat) => match limits(k) case Some(l) => (if l > 0 then l else 1) case None => DEFAULT_LIMIT
  }

  /** The position walk as its caller sees it. */
  function Written(walk: Walk, scope: string, json: Json): Caller {
    match walk
    case Complete(collected) => Ended(collected)
    case Reading(collected, position) =>
      More(collected, CursorOf(position, scope, json))
  }

  /** Cursors of the entries survive their text. */
  ghost predicate FaithfulFor(sources: seq<seq<Entry>>, scope: string, json: Json) {
    forall k, e :: 0 <= k < |sources| && e in sources[k] ==> Faithful(json, BodyOf(Order(e), scope))
  }

  /** A page's next position is that of an entry it read. */
  lemma NextIsOfAnEntry(source: seq<Entry>, w: Window, position: Option<Position>, limit: nat)
    requires limit > 0
    ensures var page := PageAt(source, w, position, limit);
      page.next.Some? ==> exists e <- source :: page.next.value == Order(e)
  {
    var wanted := Keep(source, Wanted(w, position));
    if |wanted| > limit { KeepMembers(source, Wanted(w, position), wanted[limit - 1]); }
  }

  /** Every cursor that `history` returned is accepted when it is fed back, whatever the limits and however the store
      grew: the calls follow the positions exactly, so what is proved about `Follow` holds of the calls. */
  lemma {:induction false} CursorsFollowPositions(w: Window, sources: seq<seq<Entry>>, limits: nat -> Option<int>,
                                                  scope: string, json: Json)
    requires ValidWindow(w) && FaithfulFor(sources, scope, json)
    requires forall k :: limits(k).Some? ==> ValidLimit(limits(k).value)
    ensures var walk := Follow(None, w, sources, Lengths(limits));
      && CallAgain(w, sources, limits, scope, json) == Written(walk, scope, json)
      && (walk.Reading? && walk.position.Some? ==> Faithful(json, BodyOf(walk.position.value, scope)))
  {
    if sources != [] {
      var n := |sources| - 1;
      CursorsFollowPositions(w, sources[..n], limits, scope, json);
      var walk := Follow(None, w, sources[..n], Lengths(limits));
      if walk.Reading? {
        if walk.position.Some? { CursorRoundTrip(walk.position.value, scope, scope, json); }
        NextIsOfAnEntry(sources[n], w, walk.position, Lengths(limits)(n));
      }
    }
  }

  /** Calling `history` with its own cursors over one snapshot ends, and returns exactly the entries from the lower to
      the upper bound, each once, newest first. */
  lemma CallsAreExact(w: Window, source: seq<Entry>, calls: nat, limits: nat -> Option<int>, scope: string, json: Json)
    requires ValidWindow(w) && Ordered(source) && FaithfulFor([source], scope, json)
    requires forall k :: limits(k).Some? ==> ValidLimit(limits(k).value)
    requires calls > |Keep(source, (e: Entry) => Asked(w, None, e))|
    ensures var caller := CallAgain(w, seq(calls, k => source), limits, scope, json);
      && caller.Ended?
      && (forall i, j :: 0 <= i < j < |caller.collected| ==> Newer(caller.collected[i], caller.collected[j]))
      && forall e :: e in caller.collected <==>
           e in source && (w.low.Some? ==> w.low.value <= e.instant) && (w.high.Some? ==> e.instant <= w.high.value)
  {
    assert [source][0] == source;
    CursorsFollowPositions(w, seq(calls, k => source), limits, scope, json);
    PagingIsExact(None, w, source, calls, Lengths(limits));
    var walk := Follow(None, w, seq(calls, k => source), Lengths(limits));
    forall e ensures e in walk.collected <==> e in source && Asked(w, None, e) {}
  }
}
