/**
 * The grouping logic of the gallery: each listed paste is sorted into one of
 * four buckets by whether its views and its lifetime are limited, and a new
 * grouping replaces the displayed one only when some group's ids differ.
 */
module Gallery {
  import opened Wrappers
  import opened Lifecycle

  datatype Bucket = Immortals | Watchlist | Timebombs | Doomed

  /** The bucket of a paste, from the metadata route's `max_views` and `expires_at`. */
  function Classify(meta: MetaView): (b: Bucket)
    ensures b == Immortals <==> meta.maxViews.None? && meta.expiresAt.None?
    ensures b == Watchlist <==> meta.maxViews.Some? && meta.expiresAt.None?
    ensures b == Timebombs <==> meta.maxViews.None? && meta.expiresAt.Some?
    ensures b == Doomed <==> meta.maxViews.Some? && meta.expiresAt.Some?
  {
    var infiniteViews := meta.maxViews.None?;
    var infiniteTime := meta.expiresAt.None?;
    if infiniteViews && infiniteTime then Immortals
    else if !infiniteViews && infiniteTime then Watchlist
    else if infiniteViews && !infiniteTime then Timebombs
    else Doomed
  }

  /** The four arrays the gallery shows, one per bucket. */
  datatype Groups = Groups(immortals: seq<Listing>, watchlist: seq<Listing>, timebombs: seq<Listing>, doomed: seq<Listing>)
  {
    function Get(b: Bucket): seq<Listing> {
      match b
      case Immortals => immortals
      case Watchlist => watchlist
      case Timebombs => timebombs
      case Doomed => doomed
    }

    /** `groups[b].push(item)` */
    function Push(b: Bucket, item: Listing): (g: Groups)
      ensures g.Get(b) == Get(b) + [item]
      ensures forall c :: c != b ==> g.Get(c) == Get(c)
    {
      match b
      case Immortals => this.(immortals := immortals + [item])
      case Watchlist => this.(watchlist := watchlist + [item])
      case Timebombs => this.(timebombs := timebombs + [item])
      case Doomed => this.(doomed := doomed + [item])
    }

    function Size(): nat {
      |immortals| + |watchlist| + |timebombs| + |doomed|
    }
  }

  const NoGroups := Groups([], [], [], [])

  /** The keys of a groups object, in the order `Object.keys` yields them. */
  const Keys: seq<Bucket> := [Immortals, Watchlist, Timebombs, Doomed]

  // ---------------------------------------------------------------- comparing groupings

  predicate SameIdsAt(xs: seq<Listing>, ys: seq<Listing>) {
    |xs| == |ys| && forall i :: 0 <= i < |xs| ==> xs[i].id == ys[i].id
  }

  /** Every group has the same length and the same id at every position. */
  predicate SameGroups(a: Groups, b: Groups) {
    forall k: Bucket :: SameIdsAt(a.Get(k), b.Get(k))
  }

  /** `isSameGroups(a, b)`: nested loops over the keys and the positions, leaving at the first difference. */
  method IsSameGroups(a: Groups, b: Groups) returns (same: bool)
    ensures same <==> SameGroups(a, b)
  {
    var ki := 0;
    while ki < |Keys|
      invariant 0 <= ki <= |Keys|
      invariant forall j :: 0 <= j < ki ==> SameIdsAt(a.Get(Keys[j]), b.Get(Keys[j]))
    {
      var k := Keys[ki];
      var xs, ys := a.Get(k), b.Get(k);
      if |xs| != |ys| {
        return false;
      }
      var i := 0;
      while i < |xs|
        invariant 0 <= i <= |xs|
        invariant forall j :: 0 <= j < i ==> xs[j].id == ys[j].id
      {
        if xs[i].id != ys[i].id {
          return false;
        }
        i := i + 1;
      }
      ki := ki + 1;
    }
    forall k: Bucket ensures SameIdsAt(a.Get(k), b.Get(k)) {
      assert k == Keys[0] || k == Keys[1] || k == Keys[2] || k == Keys[3];
    }
    return true;
  }

  /** Only the ids count: two groupings compare equal exactly when their id sequences agree. */
  lemma {:induction false} SameGroupsIffSameIds(a: Groups, b: Groups)
    ensures SameGroups(a, b) <==> forall k: Bucket :: IdsOf(a.Get(k)) == IdsOf(b.Get(k))
  {
    if forall k: Bucket :: IdsOf(a.Get(k)) == IdsOf(b.Get(k)) {
      forall k: Bucket ensures SameIdsAt(a.Get(k), b.Get(k)) {
        var xs, ys := a.Get(k), b.Get(k);
        assert |IdsOf(xs)| == |IdsOf(ys)|;
        forall i | 0 <= i < |xs| ensures xs[i].id == ys[i].id {
          assert IdsOf(xs)[i] == IdsOf(ys)[i];
        }
      }
    }
    if SameGroups(a, b) {
      forall k: Bucket ensures IdsOf(a.Get(k)) == IdsOf(b.Get(k)) {
        assert SameIdsAt(a.Get(k), b.Get(k));
      }
    }
  }

  /** Changing anything but ids (content, say) never changes the comparison. */
  lemma OnlyIdsMatter(a: Groups, a': Groups, b: Groups)
    requires forall k: Bucket :: IdsOf(a.Get(k)) == IdsOf(a'.Get(k))
    ensures SameGroups(a, b) <==> SameGroups(a', b)
  {
    SameGroupsIffSameIds(a, b);
    SameGroupsIffSameIds(a', b);
  }

  lemma SameGroupsReflexive(a: Groups)
    ensures SameGroups(a, a)
  {
  }

  // ---------------------------------------------------------------- grouping the list

  /** A listed paste and the answer of its metadata request (`None` when that request failed). */
  datatype Fetched = Fetched(paste: Listing, meta: Option<MetaView>)

  /** One iteration of the loader: a paste whose metadata came back goes to its bucket. */
  function Place(g: Groups, f: Fetched): Groups {
    if f.meta.None? then g else g.Push(Classify(f.meta.value), f.paste)
  }

  /** The groups after processing `fs` in order, starting from empty groups. */
  function Grouped(fs: seq<Fetched>): Groups
    decreases |fs|
  {
    if fs == [] then NoGroups else Place(Grouped(fs[..|fs| - 1]), fs[|fs| - 1])
  }

  /** Reference definition of a group: the pastes of `fs` whose metadata puts them in `b`, in order. */
  function InBucket(fs: seq<Fetched>, b: Bucket): seq<Listing> {
    if fs == [] then []
    else (if fs[0].meta.Some? && Classify(fs[0].meta.value) == b then [fs[0].paste] else [])
         + InBucket(fs[1..], b)
  }

  /** The number of pastes whose metadata request succeeded. */
  function Answered(fs: seq<Fetched>): nat {
    if fs == [] then 0 else (if fs[0].meta.Some? then 1 else 0) + Answered(fs[1..])
  }

  lemma {:induction false} InBucketAppend(fs: seq<Fetched>, gs: seq<Fetched>, b: Bucket)
    ensures InBucket(fs + gs, b) == InBucket(fs, b) + InBucket(gs, b)
  {
    if fs == [] {
      assert fs + gs == gs;
    } else {
      assert (fs + gs)[0] == fs[0] && (fs + gs)[1..] == fs[1..] + gs;
      InBucketAppend(fs[1..], gs, b);
    }
  }

  lemma {:induction false} AnsweredAppend(fs: seq<Fetched>, gs: seq<Fetched>)
    ensures Answered(fs + gs) == Answered(fs) + Answered(gs)
  {
    if fs == [] {
      assert fs + gs == gs;
    } else {
      assert (fs + gs)[0] == fs[0] && (fs + gs)[1..] == fs[1..] + gs;
      AnsweredAppend(fs[1..], gs);
    }
  }

  /**
   * Each paste goes into exactly the group its metadata classifies it into, in
   * processing order, and the groups hold exactly the pastes whose metadata came back.
   */
  lemma {:induction false} GroupedIsInBucket(fs: seq<Fetched>)
    ensures forall b :: Grouped(fs).Get(b) == InBucket(fs, b)
    ensures Grouped(fs).Size() == Answered(fs)
    decreases |fs|
  {
    if fs != [] {
      var init, last := fs[..|fs| - 1], fs[|fs| - 1];
      assert fs == init + [last];
      GroupedIsInBucket(init);
      AnsweredAppend(init, [last]);
      forall b ensures Grouped(fs).Get(b) == InBucket(fs, b) {
        InBucketAppend(init, [last], b);
      }
    }
  }

  function Reverse(s: seq<Fetched>): (r: seq<Fetched>)
    ensures |r| == |s| && forall i :: 0 <= i < |s| ==> r[i] == s[|s| - 1 - i]
  {
    if s == [] then [] else Reverse(s[1..]) + [s[0]]
  }

  lemma {:induction false} AnsweredReverse(s: seq<Fetched>)
    ensures Answered(Reverse(s)) == Answered(s)
  {
    if s != [] {
      AnsweredReverse(s[1..]);
      AnsweredAppend(Reverse(s[1..]), [s[0]]);
      assert Reverse(s) == Reverse(s[1..]) + [s[0]];
    }
  }

  /**
   * The loader's grouping step, run sequentially over the list in reverse order
   * (`[...data].reverse()`), starting from four empty arrays.
   */
  method GroupPastes(data: seq<Fetched>) returns (g: Groups)
    ensures forall b :: g.Get(b) == InBucket(Reverse(data), b)
    ensures g.Size() == Answered(data)
  {
    var items := Reverse(data);
    g := NoGroups;
    var i := 0;
    while i < |items|
      invariant 0 <= i <= |items|
      invariant g == Grouped(items[..i])
    {
      var f := items[i];
      if f.meta.Some? {
        var t := Classify(f.meta.value);
        g := g.Push(t, f.paste);
      }
      assert items[..i + 1][..i] == items[..i];
      i := i + 1;
    }
    assert items[..i] == items;
    GroupedIsInBucket(items);
    AnsweredReverse(data);
  }
}
