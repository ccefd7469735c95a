/**
 * The paste store behind the HTTP routes: a table from id to paste, kept with
 * the order rows were inserted in. The order of an unordered `SELECT *` is
 * assumed to be insertion order, as a scan of a rowid table gives. Creating
 * inserts one row; a consuming read raises one row's counter; metadata and
 * listing only read.
 *
 * Each consuming read is one sequential step here: the liveness check and the
 * increment happen together, so the view bound below is a property of this
 * sequential store.
 */
module PasteStore {
  import opened Wrappers
  import opened JsValue
  import opened Lifecycle
  import Html

  predicate NoDuplicates(s: seq<Id>) {
    forall i, j :: 0 <= i < j < |s| ==> s[i] != s[j]
  }

  /** `xs` is `ys` with some entries left out, the rest kept in order. */
  predicate IsSubsequence(xs: seq<Id>, ys: seq<Id>)
    decreases |ys|
  {
    if xs == [] then true
    else if ys == [] then false
    else if xs[0] == ys[0] then IsSubsequence(xs[1..], ys[1..])
    else IsSubsequence(xs, ys[1..])
  }

  /** The list route's `filter` then `map`, over the rows in store order. */
  function Listed(ids: seq<Id>, pastes: map<Id, Paste>, now: int): seq<Listing> {
    if ids == [] then []
    else
      var id := ids[0];
      (if id in pastes && PassesFilter(pastes[id], now) then [Listing(id, pastes[id].content)] else [])
      + Listed(ids[1..], pastes, now)
  }

  /** Every listed entry is a passing row with its content, and the ids appear in store order. */
  lemma {:induction false} ListedSound(ids: seq<Id>, pastes: map<Id, Paste>, now: int)
    ensures var r := Listed(ids, pastes, now);
            && (forall k :: 0 <= k < |r| ==>
                  r[k].id in ids && r[k].id in pastes && PassesFilter(pastes[r[k].id], now)
                  && r[k].content == pastes[r[k].id].content)
            && IsSubsequence(IdsOf(r), ids)
  {
    if ids != [] {
      var id, r := ids[0], Listed(ids, pastes, now);
      var tail := Listed(ids[1..], pastes, now);
      ListedSound(ids[1..], pastes, now);
      if id in pastes && PassesFilter(pastes[id], now) {
        assert r == [Listing(id, pastes[id].content)] + tail;
        assert IdsOf(r)[1..] == IdsOf(tail);
      } else {
        assert r == tail;
        SubsequenceOfTail(IdsOf(r), ids);
      }
    }
  }

  /** Allowing one more entry in front keeps a subsequence a subsequence. */
  lemma {:induction false} SubsequenceOfTail(xs: seq<Id>, ys: seq<Id>)
    requires ys != [] && IsSubsequence(xs, ys[1..])
    ensures IsSubsequence(xs, ys)
    decreases |ys|, 1
  {
    if xs != [] && xs[0] == ys[0] {
      SubsequenceDropHead(xs, ys[1..]);
    }
  }

  lemma {:induction false} SubsequenceDropHead(xs: seq<Id>, zs: seq<Id>)
    requires xs != [] && IsSubsequence(xs, zs)
    ensures IsSubsequence(xs[1..], zs)
    decreases |zs| + 1, 0
  {
    if xs[0] == zs[0] {
      if xs[1..] != [] {
        SubsequenceOfTail(xs[1..], zs);
      }
    } else {
      SubsequenceDropHead(xs, zs[1..]);
      SubsequenceOfTail(xs[1..], zs);
    }
  }

  /** Every passing row of `ids` is listed. */
  lemma {:induction false} ListedComplete(ids: seq<Id>, pastes: map<Id, Paste>, now: int, id: Id)
    requires id in ids && id in pastes && PassesFilter(pastes[id], now)
    ensures id in IdsOf(Listed(ids, pastes, now))
  {
    var r, tail := Listed(ids, pastes, now), Listed(ids[1..], pastes, now);
    if ids[0] == id {
      assert IdsOf(r)[0] == id;
    } else {
      ListedComplete(ids[1..], pastes, now, id);
      var k :| 0 <= k < |IdsOf(tail)| && IdsOf(tail)[k] == id;
      assert r == Listed(ids[..1], pastes, now) + tail;
      assert IdsOf(r)[|r| - |tail| + k] == id;
    }
  }

  /** A subsequence of a list without duplicates has none either. */
  lemma {:induction false} SubsequenceNoDuplicates(xs: seq<Id>, ys: seq<Id>)
    requires IsSubsequence(xs, ys) && NoDuplicates(ys)
    ensures NoDuplicates(xs) && forall x :: x in xs ==> x in ys
    decreases |ys|
  {
    if xs != [] && ys != [] {
      if xs[0] == ys[0] {
        var xt, yt := xs[1..], ys[1..];
        assert NoDuplicates(yt) by {
          forall i, j | 0 <= i < j < |yt| ensures yt[i] != yt[j] {
            assert yt[i] == ys[i + 1] && yt[j] == ys[j + 1];
          }
        }
        SubsequenceNoDuplicates(xt, yt);
        assert forall y :: y in yt ==> y != ys[0] by {
          forall y | y in yt ensures y != ys[0] {
            var k :| 0 <= k < |yt| && yt[k] == y;
            assert ys[k + 1] == y;
          }
        }
        forall i, j | 0 <= i < j < |xs| ensures xs[i] != xs[j] {
          assert xs[j] == xt[j - 1] && xt[j - 1] in yt;
          if i > 0 {
            assert xs[i] == xt[i - 1];
          }
        }
        forall x | x in xs ensures x in ys {
          if x == xs[0] {
            assert ys[0] in ys;
          } else {
            var k :| 0 <= k < |xs| && xs[k] == x;
            assert xt[k - 1] == x && x in xt && x in yt;
            var m :| 0 <= m < |yt| && yt[m] == x;
            assert ys[m + 1] == x;
          }
        }
      } else {
        SubsequenceNoDuplicates(xs, ys[1..]);
      }
    }
  }

  /** Every row of `m1` is still in `m2`, with only its view counter moved up. */
  ghost predicate Evolves(m1: map<Id, Paste>, m2: map<Id, Paste>) {
    forall id :: id in m1 ==> id in m2 && Later(m1[id], m2[id])
  }

  lemma EvolvesTransitive(m1: map<Id, Paste>, m2: map<Id, Paste>, m3: map<Id, Paste>)
    requires Evolves(m1, m2) && Evolves(m2, m3)
    ensures Evolves(m1, m3)
  {
  }

  /** No resurrection: a paste dead at `t` is dead at every later instant of every later store. */
  lemma NoResurrection(m1: map<Id, Paste>, m2: map<Id, Paste>, id: Id, t: int, t': int)
    requires Evolves(m1, m2) && id in m1 && t <= t'
    requires !Live(m1[id], t)
    ensures id in m2 && !Live(m2[id], t')
  {
    DeadStaysDead(m1[id], m2[id], t, t');
  }

  class Store {
    var pastes: map<Id, Paste>
    /** The ids in insertion order. */
    var order: seq<Id>

    ghost predicate Valid()
      reads this
    {
      && NoDuplicates(order)
      && (forall id :: id in pastes <==> id in order)
      && (forall id :: id in pastes ==> WellFormed(pastes[id]))
    }

    constructor ()
      ensures Valid() && pastes == map[] && order == []
    {
      pastes := map[];
      order := [];
    }

    /** `POST /api/pastes`: validate, then insert a fresh row with no views. */
    method Create(body: CreateBody, id: Id, created: nat) returns (r: Result<Id, CreateError>)
      requires Valid()
      modifies this
      ensures Valid()
      ensures Validate(body).Err? ==> r == Err(Validate(body).error) && unchanged(this)
      ensures Validate(body).Ok? && id in old(pastes) ==> r == Err(DbError) && unchanged(this)
      ensures Validate(body).Ok? && id !in old(pastes) ==>
                && r == Ok(id)
                && pastes == old(pastes)[id := NewPaste(Validate(body).value, created)]
                && order == old(order) + [id]
      ensures Evolves(old(pastes), pastes)
    {
      var v := Validate(body);
      if v.Err? {
        return Err(v.error);
      }
      if id in pastes {
        // the primary key refuses a second row with the same id
        return Err(DbError);
      }
      ValidatedLimits(body);
      pastes := pastes[id := NewPaste(v.value, created)];
      order := order + [id];
      r := Ok(id);
    }

    /** `GET /api/pastes/:id/meta`: the metadata of a live paste, without counting a view. */
    function Meta(id: Id, now: int): (r: Lookup<MetaView>)
      reads this
      requires Valid()
      ensures r.Found? <==> id in pastes && Live(pastes[id], now)
      ensures r.Found? ==> r.value == MetaOf(pastes[id])
      ensures r.Found? && pastes[id].maxViews.Some? ==>
                r.value.remainingViews == Some(pastes[id].maxViews.value - pastes[id].viewCount)
    {
      if id !in pastes || !PassesFilter(pastes[id], now) then NotFound
      else Found(MetaOf(pastes[id]))
    }

    /** `GET /api/pastes`: exactly the live pastes, in store order, as id and content. */
    function List(now: int): (r: seq<Listing>)
      reads this
      requires Valid()
      ensures forall k :: 0 <= k < |r| ==>
                r[k].id in pastes && Live(pastes[r[k].id], now) && r[k].content == pastes[r[k].id].content
      ensures forall id :: id in pastes && Live(pastes[id], now) ==> id in IdsOf(r)
      ensures IsSubsequence(IdsOf(r), order) && NoDuplicates(IdsOf(r))
    {
      var r := Listed(order, pastes, now);
      ListedSound(order, pastes, now);
      SubsequenceNoDuplicates(IdsOf(r), order);
      assert forall id :: id in pastes && Live(pastes[id], now) ==> id in IdsOf(r) by {
        forall id | id in pastes && Live(pastes[id], now) ensures id in IdsOf(r) {
          ListedComplete(order, pastes, now, id);
        }
      }
      r
    }

    /**
     * `GET /api/pastes/:id`: a live paste is served and its counter goes up by
     * one; remaining views count the view being served.
     */
    method Consume(id: Id, now: int) returns (r: Lookup<View>)
      requires Valid()
      modifies this
      ensures Valid() && order == old(order)
      ensures r.Found? <==> id in old(pastes) && Live(old(pastes)[id], now)
      ensures id in old(pastes) ==> pastes == old(pastes)[id := Step(old(pastes)[id], now)]
      ensures r.Found? ==> r.value == ViewOf(old(pastes)[id])
      ensures r.Found? ==> pastes[id].viewCount == old(pastes)[id].viewCount + 1
      ensures r.NotFound? ==> pastes == old(pastes)
      ensures Evolves(old(pastes), pastes)
    {
      if id !in pastes {
        return NotFound;
      }
      var p := pastes[id];
      if !PassesFilter(p, now) {
        assert pastes == pastes[id := p];
        return NotFound;
      }
      pastes := pastes[id := p.(viewCount := p.viewCount + 1)];
      r := Found(ViewOf(p));
    }

    /** `GET /p/:id`: the same transition, answering the escaped content for the HTML page. */
    method ViewHtml(id: Id, now: int) returns (r: Lookup<string>)
      requires Valid()
      modifies this
      ensures Valid() && order == old(order)
      ensures r.Found? <==> id in old(pastes) && Live(old(pastes)[id], now)
      ensures id in old(pastes) ==> pastes == old(pastes)[id := Step(old(pastes)[id], now)]
      ensures r.Found? ==> r.value == Html.EscapeHtml(old(pastes)[id].content)
      ensures r.NotFound? ==> pastes == old(pastes)
      ensures Evolves(old(pastes), pastes)
    {
      var v := Consume(id, now);
      r := if v.Found? then Found(Html.EscapeHtml(v.value.content)) else NotFound;
    }
  }

  /** The gallery asks for the metadata of each listed paste; at the same instant each is found. */
  lemma ListedHaveMeta(s: Store, now: int)
    requires s.Valid()
    ensures forall id :: id in IdsOf(s.List(now)) <==> s.Meta(id, now).Found?
  {
    var r := s.List(now);
    forall id | id in IdsOf(r) ensures s.Meta(id, now).Found? {
      var k :| 0 <= k < |r| && IdsOf(r)[k] == id;
    }
  }
}
