/**
 * The paste lifecycle of the backend: the stored record, the clock selection,
 * validation of a create request, the liveness test applied by every read, the
 * remaining-views arithmetic, and the transition a consuming read makes on one
 * paste. A paste is never deleted: "dead" is computed from
 * (now, expires_at, max_views, view_count), never stored.
 *
 * Instants are milliseconds since the epoch, as unbounded integers.
 */
module Lifecycle {
  import opened Wrappers
  import opened JsValue

  type Id = string

  /** A row of the `pastes` table. Only `viewCount` ever changes after the insert. */
  datatype Paste = Paste(
    content: string,
    createdAt: nat,
    expiresAt: Option<int>,
    maxViews: Option<int>,
    viewCount: nat)

  /** What the metadata route answers for a live paste. */
  datatype MetaView = MetaView(
    currentViews: nat,
    maxViews: Option<int>,
    remainingViews: Option<int>,
    expiresAt: Option<int>)

  /** What a consuming read answers for a live paste. */
  datatype View = View(content: string, remainingViews: Option<int>, expiresAt: Option<int>)

  /** One entry of the list route (the `url` built from the host is left out). */
  datatype Listing = Listing(id: Id, content: string)

  /** The ids of a list answer, in its order. */
  function IdsOf(l: seq<Listing>): (ids: seq<Id>)
    ensures |ids| == |l| && forall k :: 0 <= k < |l| ==> ids[k] == l[k].id
  {
    seq(|l|, k requires 0 <= k < |l| => l[k].id)
  }

  /** A read of a missing, expired or exhausted paste: all three give the same answer. */
  datatype Lookup<+T> = Found(value: T) | NotFound

  /** The invariants of a stored paste, the view bound among them. */
  predicate WellFormed(p: Paste) {
    && (p.expiresAt.Some? ==> p.expiresAt.value > p.createdAt)
    && (p.maxViews.Some? ==> p.maxViews.value >= 1 && p.viewCount <= p.maxViews.value)
  }

  // ---------------------------------------------------------------- clock

  /**
   * The instant a request is judged at: in test mode a present `x-test-now-ms`
   * header (already parsed to an integer) replaces the wall clock.
   */
  function NowMs(testMode: bool, header: Option<int>, wallClock: int): (now: int)
    ensures testMode && header.Some? ==> now == header.value
    ensures !testMode ==> now == wallClock
    ensures header.None? ==> now == wallClock
  {
    if testMode && header.Some? then header.value else wallClock
  }

  // ---------------------------------------------------------------- liveness

  /** The liveness predicate, with the strict expiry bound `now < expires_at`. */
  predicate Live(p: Paste, now: int) {
    && (p.expiresAt.None? || now < p.expiresAt.value)
    && (p.maxViews.None? || p.viewCount < p.maxViews.value)
  }

  /** Live as far as time goes; views are not looked at. */
  predicate TimeAlive(p: Paste, now: int) {
    p.expiresAt.None? || now < p.expiresAt.value
  }

  /**
   * The two tests the list, metadata and loader code apply, with JavaScript
   * truthiness: `row.expires_at && now >= row.expires_at` and
   * `row.max_views && row.view_count >= row.max_views`, so a stored 0 counts as
   * "no limit". On a well-formed row this is exactly `Live`.
   */
  predicate PassesFilter(p: Paste, now: int)
    ensures WellFormed(p) ==> (PassesFilter(p, now) <==> Live(p, now))
  {
    && !(p.expiresAt.Some? && p.expiresAt.value != 0 && now >= p.expiresAt.value)
    && !(p.maxViews.Some? && p.maxViews.value != 0 && p.viewCount >= p.maxViews.value)
  }

  /** `max_views === null ? null : Math.max(max_views - used, 0)` */
  function RemainingViews(maxViews: Option<int>, used: int): (r: Option<int>)
    ensures r.None? <==> maxViews.None?
    ensures r.Some? ==> r.value >= 0 && r.value >= maxViews.value - used
    ensures r.Some? && used <= maxViews.value ==> r.value == maxViews.value - used
    ensures r.Some? && used >= maxViews.value ==> r.value == 0
  {
    match maxViews
    case None => None
    case Some(m) => Some(if m - used > 0 then m - used else 0)
  }

  /** The metadata projection of a paste; it is an answer only when the paste is live. */
  function MetaOf(p: Paste): (m: MetaView)
    ensures m.currentViews == p.viewCount && m.maxViews == p.maxViews && m.expiresAt == p.expiresAt
    ensures m.remainingViews.None? <==> p.maxViews.None?
    ensures p.maxViews.Some? && p.viewCount < p.maxViews.value ==>
              m.remainingViews == Some(p.maxViews.value - p.viewCount) && m.remainingViews.value >= 1
  {
    MetaView(p.viewCount, p.maxViews, RemainingViews(p.maxViews, p.viewCount), p.expiresAt)
  }

  /** What a consuming read answers: remaining views count the view being served. */
  function ViewOf(p: Paste): (v: View)
    ensures v.content == p.content && v.expiresAt == p.expiresAt
    ensures v.remainingViews.None? <==> p.maxViews.None?
    ensures p.maxViews.Some? && p.viewCount < p.maxViews.value ==>
              v.remainingViews == Some(p.maxViews.value - p.viewCount - 1)
  {
    View(p.content, RemainingViews(p.maxViews, p.viewCount + 1), p.expiresAt)
  }

  // ---------------------------------------------------------------- consuming one view

  /** `q` is a later state of `p`: only the view counter may have moved, and only upwards. */
  predicate Later(p: Paste, q: Paste) {
    && q.content == p.content && q.createdAt == p.createdAt
    && q.expiresAt == p.expiresAt && q.maxViews == p.maxViews
    && p.viewCount <= q.viewCount
  }

  /**
   * The effect of a consuming read on the paste it names: when the paste passes
   * the liveness test its counter goes up by one, otherwise nothing happens.
   */
  function Step(p: Paste, now: int): (q: Paste)
    ensures WellFormed(p) ==> WellFormed(q)
    ensures Later(p, q)
    ensures WellFormed(p) ==> q.viewCount == if Live(p, now) then p.viewCount + 1 else p.viewCount
  {
    if PassesFilter(p, now) then p.(viewCount := p.viewCount + 1) else p
  }

  /** Once dead, always dead: the counter only grows, expiry never moves, time only advances. */
  lemma DeadStaysDead(p: Paste, q: Paste, t: int, t': int)
    requires Later(p, q) && t <= t'
    requires !Live(p, t)
    ensures !Live(q, t')
  {
  }

  /** The answers (found or not) of a run of consuming reads of one paste at the instants `nows`. */
  function Outcomes(p: Paste, nows: seq<int>): (r: seq<bool>)
    ensures |r| == |nows|
    decreases |nows|
  {
    if nows == [] then [] else [PassesFilter(p, nows[0])] + Outcomes(Step(p, nows[0]), nows[1..])
  }

  /** The number of successful reads in a run of answers. */
  function Successes(r: seq<bool>): nat {
    if r == [] then 0 else (if r[0] then 1 else 0) + Successes(r[1..])
  }

  /**
   * A paste allowing K views that has served c of them, read while its time has
   * not run out, answers the next K - c reads and no read after them.
   */
  lemma {:induction false} ExactlyRemainingViews(p: Paste, nows: seq<int>)
    requires WellFormed(p) && p.maxViews.Some?
    requires forall j :: 0 <= j < |nows| ==> TimeAlive(p, nows[j])
    ensures forall j :: 0 <= j < |nows| ==> Outcomes(p, nows)[j] == (j < p.maxViews.value - p.viewCount)
    decreases |nows|
  {
    if nows != [] {
      var q := Step(p, nows[0]);
      forall j | 0 <= j < |nows[1..]| ensures TimeAlive(q, nows[1..][j]) {
        assert TimeAlive(p, nows[j + 1]);
      }
      ExactlyRemainingViews(q, nows[1..]);
      assert Outcomes(p, nows) == [PassesFilter(p, nows[0])] + Outcomes(q, nows[1..]);
    }
  }

  /** Of N reads while time-alive, exactly min(N, K - c) succeed. */
  lemma {:induction false} SuccessesAreBounded(p: Paste, nows: seq<int>)
    requires WellFormed(p) && p.maxViews.Some?
    requires forall j :: 0 <= j < |nows| ==> TimeAlive(p, nows[j])
    ensures var left := p.maxViews.value - p.viewCount;
            Successes(Outcomes(p, nows)) == if |nows| < left then |nows| else left
    decreases |nows|
  {
    if nows != [] {
      var q := Step(p, nows[0]);
      forall j | 0 <= j < |nows[1..]| ensures TimeAlive(q, nows[1..][j]) {
        assert TimeAlive(p, nows[j + 1]);
      }
      SuccessesAreBounded(q, nows[1..]);
      assert Outcomes(p, nows)[1..] == Outcomes(q, nows[1..]);
    }
  }

  /** Of any run of reads, at any instants, at most K - c succeed. */
  lemma {:induction false} SuccessBound(p: Paste, nows: seq<int>)
    requires WellFormed(p) && p.maxViews.Some?
    ensures Successes(Outcomes(p, nows)) <= p.maxViews.value - p.viewCount
    decreases |nows|
  {
    if nows != [] {
      var q := Step(p, nows[0]);
      SuccessBound(q, nows[1..]);
      assert Outcomes(p, nows)[1..] == Outcomes(q, nows[1..]);
    }
  }

  /** Without a view limit, every read answers until the time runs out. */
  lemma {:induction false} UnlimitedViewsAlwaysServed(p: Paste, nows: seq<int>)
    requires WellFormed(p) && p.maxViews.None?
    requires forall j :: 0 <= j < |nows| ==> TimeAlive(p, nows[j])
    ensures forall j :: 0 <= j < |nows| ==> Outcomes(p, nows)[j]
    decreases |nows|
  {
    if nows != [] {
      var q := Step(p, nows[0]);
      forall j | 0 <= j < |nows[1..]| ensures TimeAlive(q, nows[1..][j]) {
        assert TimeAlive(p, nows[j + 1]);
      }
      UnlimitedViewsAlwaysServed(q, nows[1..]);
      assert Outcomes(p, nows) == [PassesFilter(p, nows[0])] + Outcomes(q, nows[1..]);
    }
  }

  // ---------------------------------------------------------------- create

  /** The three properties of a create request body; `None` is an absent property. */
  datatype CreateBody = CreateBody(content: Option<Json>, ttlSeconds: Option<Json>, maxViews: Option<Json>)

  /** A validated request. */
  datatype Accepted = Accepted(content: string, ttlSeconds: Option<int>, maxViews: Option<int>)

  datatype CreateError = InvalidContent | InvalidTtlSeconds | InvalidMaxViews | DbError

  /** `!content || typeof content !== "string" || !content.trim()` */
  predicate ContentRejected(content: Option<Json>) {
    !Truthy(content) || !IsString(content) || Trim(content.value.s) == []
  }

  /** `x !== undefined && (!Number.isInteger(x) || x < 1)` */
  predicate CountRejected(x: Option<Json>) {
    x.Some? && (!IsInteger(x.value) || x.value.n.i < 1)
  }

  /** The content rule: a string with some non-whitespace character. */
  predicate GoodContent(content: Option<Json>) {
    match content
    case Some(JStr(s)) => HasNonWhitespace(s)
    case _ => false
  }

  /** The handler's content test rejects exactly the contents the content rule rules out. */
  lemma ContentRule(content: Option<Json>)
    ensures ContentRejected(content) <==> !GoodContent(content)
  {
    if content.Some? && content.value.JStr? {
      TrimEmptyIffBlank(content.value.s);
    }
  }

  /** The limit rule: absent, or an integral number >= 1. */
  predicate GoodCount(x: Option<Json>) {
    match x
    case None => true
    case Some(JNum(Integral(k))) => k >= 1
    case Some(_) => false
  }

  function CountValue(x: Option<Json>): (r: Option<int>)
    requires !CountRejected(x)
    ensures r.None? <==> x.None?
    ensures r.Some? ==> r.value >= 1 && x == Some(JNum(Integral(r.value)))
  {
    if x.None? then None else Some(x.value.n.i)
  }

  /**
   * Validation of a create request, checked in the order of the handler: content
   * first, then `ttl_seconds`, then `max_views`; the first failure is reported.
   */
  function Validate(body: CreateBody): (r: Result<Accepted, CreateError>)
    ensures r.Ok? <==> GoodContent(body.content) && GoodCount(body.ttlSeconds) && GoodCount(body.maxViews)
    ensures !GoodContent(body.content) ==> r == Err(InvalidContent)
    ensures GoodContent(body.content) && !GoodCount(body.ttlSeconds) ==> r == Err(InvalidTtlSeconds)
    ensures GoodContent(body.content) && GoodCount(body.ttlSeconds) && !GoodCount(body.maxViews) ==>
              r == Err(InvalidMaxViews)
    ensures r.Ok? ==> Some(JStr(r.value.content)) == body.content
    ensures r.Ok? ==> (r.value.ttlSeconds.None? <==> body.ttlSeconds.None?)
    ensures r.Ok? && r.value.ttlSeconds.Some? ==>
              r.value.ttlSeconds.value >= 1 && body.ttlSeconds == Some(JNum(Integral(r.value.ttlSeconds.value)))
    ensures r.Ok? ==> (r.value.maxViews.None? <==> body.maxViews.None?)
    ensures r.Ok? && r.value.maxViews.Some? ==>
              r.value.maxViews.value >= 1 && body.maxViews == Some(JNum(Integral(r.value.maxViews.value)))
  {
    ContentRule(body.content);
    if ContentRejected(body.content) then Err(InvalidContent)
    else if CountRejected(body.ttlSeconds) then Err(InvalidTtlSeconds)
    else if CountRejected(body.maxViews) then Err(InvalidMaxViews)
    else Ok(Accepted(body.content.value.s, CountValue(body.ttlSeconds), CountValue(body.maxViews)))
  }

  /** A request the validator accepted carries positive limits. */
  predicate AcceptedLimits(a: Accepted) {
    && (a.ttlSeconds.Some? ==> a.ttlSeconds.value >= 1)
    && (a.maxViews.Some? ==> a.maxViews.value >= 1)
  }

  /**
   * The row inserted for an accepted request created at `created`:
   * `expires_at` is `created + ttl_seconds * 1000` when a (truthy) TTL is given.
   */
  function NewPaste(a: Accepted, created: nat): (p: Paste)
    requires AcceptedLimits(a)
    ensures WellFormed(p)
    ensures p.content == a.content && p.createdAt == created && p.maxViews == a.maxViews && p.viewCount == 0
    ensures p.expiresAt.None? <==> a.ttlSeconds.None?
    ensures p.expiresAt.Some? ==> p.expiresAt.value == created + a.ttlSeconds.value * 1000
    ensures Live(p, created)
  {
    var expires := if a.ttlSeconds.Some? && a.ttlSeconds.value != 0
                   then Some(created + a.ttlSeconds.value * 1000) else None;
    Paste(a.content, created, expires, a.maxViews, 0)
  }

  /** Whatever `Validate` accepts can be turned into a row. */
  lemma ValidatedLimits(body: CreateBody)
    requires Validate(body).Ok?
    ensures AcceptedLimits(Validate(body).value)
  {
  }

  /**
   * The exact TTL boundary: a paste created with a TTL of T seconds answers one
   * millisecond before created + 1000 T and never from that instant on.
   */
  lemma {:induction false} TtlBoundary(a: Accepted, created: nat, t: int)
    requires AcceptedLimits(a) && a.ttlSeconds.Some?
    ensures var p := NewPaste(a, created);
            var deadline := created + a.ttlSeconds.value * 1000;
            Live(p, deadline - 1) && (t >= deadline ==> !Live(p, t))
  {
  }

  /**
   * The metadata of a fresh paste with a view limit K reports K remaining views;
   * after one successful consuming read it reports K - 1 while K - 1 > 0, and the
   * paste is gone when K was 1.
   */
  lemma {:induction false} RemainingAfterOneView(a: Accepted, created: nat, now: int)
    requires AcceptedLimits(a) && a.maxViews.Some?
    requires TimeAlive(NewPaste(a, created), now)
    ensures var p := NewPaste(a, created);
            var k := a.maxViews.value;
            && MetaOf(p).remainingViews == Some(k)
            && ViewOf(p).remainingViews == Some(k - 1)
            && (Live(Step(p, now), now) <==> k >= 2)
            && (k >= 2 ==> MetaOf(Step(p, now)).remainingViews == Some(k - 1))
  {
    var p := NewPaste(a, created);
    assert Live(p, now);
    assert Step(p, now).viewCount == 1;
  }
}
