/**
 * Clients of the store that replay, sequentially, scenarios the repository's own
 * test suite describes. They only use the contracts of `Store`, so they show
 * that those contracts determine each answer.
 */
module Scenarios {
  import opened Wrappers
  import opened JsValue
  import opened Lifecycle
  import opened PasteStore

  /** A paste with `max_views = 5` is served five times, then never again. */
  method SequentialViews(id: Id, created: nat, now: int) {
    var s := new Store();
    var body := CreateBody(Some(JStr("L3-seq")), None, Some(JNum(Integral(5))));
    assert !IsJsWhitespace('L');
    var c := s.Create(body, id, created);
    assert c == Ok(id) && s.pastes[id].viewCount == 0;
    var n := 0;
    while n < 5
      invariant 0 <= n <= 5 && s.Valid()
      invariant id in s.pastes && s.pastes[id].viewCount == n && s.pastes[id].maxViews == Some(5)
      invariant s.pastes[id].expiresAt.None?
    {
      var r := s.Consume(id, now);
      assert r.Found? && r.value.remainingViews == Some(4 - n);
      n := n + 1;
    }
    var last := s.Consume(id, now);
    assert last == NotFound;
    assert s.Meta(id, now) == NotFound;
  }

  /** A paste with a one-second TTL is served at 999 ms and gone at 1000 ms, even for metadata. */
  method ExactTtlBoundary(id: Id, created: nat) {
    var s := new Store();
    var body := CreateBody(Some(JStr("L4-boundary")), Some(JNum(Integral(1))), None);
    assert !IsJsWhitespace('L');
    var c := s.Create(body, id, created);
    assert c == Ok(id) && s.pastes[id].expiresAt == Some(created + 1000);
    var early := s.Consume(id, created + 999);
    assert early.Found?;
    var atExpiry := s.Consume(id, created + 1000);
    assert atExpiry == NotFound;
    var after := s.Consume(id, created + 1001);
    assert after == NotFound;
    assert s.Meta(id, created + 1000) == NotFound;
  }

  /** Invalid bodies are refused in order, and the store is left empty. */
  method RejectedBodies(id: Id, created: nat) {
    var s := new Store();
    var r1 := s.Create(CreateBody(Some(JStr(" \t\n")), None, None), id, created);
    assert r1 == Err(InvalidContent);
    var r2 := s.Create(CreateBody(Some(JNum(Integral(123))), None, None), id, created);
    assert r2 == Err(InvalidContent);
    var r3 := s.Create(CreateBody(Some(JStr("ok")), Some(JNum(NonIntegral)), Some(JNum(Integral(0)))), id, created);
    assert !IsJsWhitespace('o');
    assert r3 == Err(InvalidTtlSeconds);
    var r4 := s.Create(CreateBody(Some(JStr("ok")), None, Some(JStr("5"))), id, created);
    assert r4 == Err(InvalidMaxViews);
    assert s.pastes == map[] && s.List(created) == [];
  }
}
