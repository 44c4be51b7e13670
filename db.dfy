/** The in-memory indexed release store: one append-only list of releases and
    three indices over it (by container, by release channel, and by the
    (container, channel) pair, where the last write for a pair wins). */
module Db {
  import opened Wrappers

  /** One deployable image for one container in one release channel. */
  datatype Release = Release(container: string, imagePath: string, releaseChannel: string)

  /** The map-comparable key of a release: its container and its channel. */
  datatype ReleaseKey = ReleaseKey(container: string, releaseChannel: string)

  /** Why a write was refused, in the order the fields are checked. */
  datatype WriteError = ContainerNotSet | ReleaseChannelNotSet | ImagePathNotSet

  function ToKey(r: Release): (k: ReleaseKey)
    ensures k.container == r.container && k.releaseChannel == r.releaseChannel
  {
    ReleaseKey(r.container, r.releaseChannel)
  }

  /** Two releases share a key exactly when they share container and channel;
      the image path plays no part. */
  lemma ToKeyIgnoresImagePath(a: Release, b: Release)
    ensures ToKey(a) == ToKey(b) <==> a.container == b.container && a.releaseChannel == b.releaseChannel
    ensures ToKey(a).container == a.container && ToKey(a).releaseChannel == a.releaseChannel
  {
  }

  /** A release the store accepts: all three fields are non-empty. */
  predicate WellFormed(r: Release)
  {
    r.container != "" && r.releaseChannel != "" && r.imagePath != ""
  }

  /** The validation at the head of Write: the first empty field, checked in
      the order container, release channel, image path. */
  function Check(r: Release): (res: Outcome<WriteError>)
    ensures res.Pass? <==> WellFormed(r)
    ensures res == Fail(ContainerNotSet) <==> r.container == ""
    ensures res == Fail(ReleaseChannelNotSet) <==> r.container != "" && r.releaseChannel == ""
    ensures res == Fail(ImagePathNotSet) <==> r.container != "" && r.releaseChannel != "" && r.imagePath == ""
  {
    if r.container == "" then Fail(ContainerNotSet)
    else if r.releaseChannel == "" then Fail(ReleaseChannelNotSet)
    else if r.imagePath == "" then Fail(ImagePathNotSet)
    else Pass
  }

  /** The two single-field indices. */
  datatype Facet = ContainerFacet | ChannelFacet

  function FacetOf(r: Release, f: Facet): string
  {
    match f
    case ContainerFacet => r.container
    case ChannelFacet => r.releaseChannel
  }

  /** The releases of `s` whose facet `f` is `v`, in the order of `s`. */
  function Matching(s: seq<Release>, f: Facet, v: string): seq<Release>
  {
    if s == [] then []
    else (if FacetOf(s[0], f) == v then [s[0]] else []) + Matching(s[1..], f, v)
  }

  /** The last release of `s` whose key is `k`, if there is one. */
  function LastByKey(s: seq<Release>, k: ReleaseKey): Option<Release>
  {
    if s == [] then None
    else if ToKey(s[|s| - 1]) == k then Some(s[|s| - 1])
    else LastByKey(s[..|s| - 1], k)
  }

  /** A missing list entry reads as the empty list (Go's nil slice). */
  function ListAt(m: map<string, seq<Release>>, v: string): seq<Release>
  {
    if v in m then m[v] else []
  }

  lemma {:induction false} MatchingSnoc(s: seq<Release>, r: Release, f: Facet, v: string)
    ensures Matching(s + [r], f, v) == Matching(s, f, v) + (if FacetOf(r, f) == v then [r] else [])
    decreases |s|
  {
    if s == [] {
      assert [r][1..] == [];
    } else {
      assert (s + [r])[0] == s[0];
      assert (s + [r])[1..] == s[1..] + [r];
      MatchingSnoc(s[1..], r, f, v);
    }
  }

  /** The index lists hold all and only the matching releases. */
  lemma {:induction false} MatchingMembers(s: seq<Release>, f: Facet, v: string, x: Release)
    ensures x in Matching(s, f, v) <==> x in s && FacetOf(x, f) == v
    decreases |s|
  {
    if s != [] {
      MatchingMembers(s[1..], f, v, x);
      assert s == [s[0]] + s[1..];
    }
  }

  lemma LastByKeySnoc(s: seq<Release>, r: Release, k: ReleaseKey)
    ensures LastByKey(s + [r], k) == if ToKey(r) == k then Some(r) else LastByKey(s, k)
  {
  }

  /** LastByKey finds the release written last for a key, and finds one
      exactly when some release of `s` has that key. */
  lemma {:induction false} LastByKeyIsLast(s: seq<Release>, k: ReleaseKey)
    ensures LastByKey(s, k).None? <==> forall i :: 0 <= i < |s| ==> ToKey(s[i]) != k
    ensures LastByKey(s, k).Some? ==>
      exists i :: 0 <= i < |s| && s[i] == LastByKey(s, k).value && ToKey(s[i]) == k &&
        forall j :: i < j < |s| ==> ToKey(s[j]) != k
    decreases |s|
  {
    if s != [] {
      var n := |s| - 1;
      var t := s[..n];
      LastByKeyIsLast(t, k);
      if ToKey(s[n]) != k {
        assert forall i :: 0 <= i < n ==> s[i] == t[i];
        if LastByKey(t, k).Some? {
          var i :| 0 <= i < |t| && t[i] == LastByKey(t, k).value && ToKey(t[i]) == k &&
            forall j :: i < j < |t| ==> ToKey(t[j]) != k;
          assert s[i] == t[i];
        }
      }
    }
  }

  /** The store. All releases ever written, in write order, and three indices. */
  class InMem {
    var all: seq<Release>
    var byContainer: map<string, seq<Release>>
    var byChannel: map<string, seq<Release>>
    var byBoth: map<ReleaseKey, Release>

    /** The cross-index invariant: every stored release is well-formed, each
        single-field index maps exactly the values that occur in `all` to the
        matching releases in write order, and the pair index maps exactly the
        keys that occur in `all` to the release written last for that key. */
    ghost predicate Valid()
      reads this
    {
      && (forall r :: r in all ==> WellFormed(r))
      && (forall v :: v in byContainer <==> Matching(all, ContainerFacet, v) != [])
      && (forall v :: v in byContainer ==> byContainer[v] == Matching(all, ContainerFacet, v))
      && (forall v :: v in byChannel <==> Matching(all, ChannelFacet, v) != [])
      && (forall v :: v in byChannel ==> byChannel[v] == Matching(all, ChannelFacet, v))
      && (forall k :: k in byBoth <==> LastByKey(all, k).Some?)
      && (forall k :: k in byBoth ==> LastByKey(all, k) == Some(byBoth[k]))
    }

    /** NewInMemoryStore: every view empty. */
    constructor ()
      ensures Valid()
      ensures all == [] && byContainer == map[] && byChannel == map[] && byBoth == map[]
    {
      all := [];
      byContainer := map[];
      byChannel := map[];
      byBoth := map[];
    }

    /** Validates the release; on success appends it to `all` and to its two
        index lists and makes it the entry for its key. A refused release
        changes nothing. */
    method Write(r: Release) returns (err: Outcome<WriteError>)
      requires Valid()
      modifies this
      ensures Valid()
      ensures err == Check(r)
      ensures err.Fail? ==>
        all == old(all) && byContainer == old(byContainer) &&
        byChannel == old(byChannel) && byBoth == old(byBoth)
      ensures err.Pass? ==>
        && all == old(all) + [r]
        && byContainer == old(byContainer)[r.container := ListAt(old(byContainer), r.container) + [r]]
        && byChannel == old(byChannel)[r.releaseChannel := ListAt(old(byChannel), r.releaseChannel) + [r]]
        && byBoth == old(byBoth)[ToKey(r) := r]
    {
      if r.container == "" {
        return Fail(ContainerNotSet);
      }
      if r.releaseChannel == "" {
        return Fail(ReleaseChannelNotSet);
      }
      if r.imagePath == "" {
        return Fail(ImagePathNotSet);
      }
      ghost var before := all;
      forall f, v ensures Matching(before + [r], f, v) == Matching(before, f, v) + (if FacetOf(r, f) == v then [r] else []) {
        MatchingSnoc(before, r, f, v);
      }
      forall k ensures LastByKey(before + [r], k) == if ToKey(r) == k then Some(r) else LastByKey(before, k) {
        LastByKeySnoc(before, r, k);
      }
      all := all + [r];
      byContainer := byContainer[r.container := ListAt(byContainer, r.container) + [r]];
      byChannel := byChannel[r.releaseChannel := ListAt(byChannel, r.releaseChannel) + [r]];
      byBoth := byBoth[ToKey(r) := r];
      assert FacetOf(r, ContainerFacet) == r.container;
      assert FacetOf(r, ChannelFacet) == r.releaseChannel;
      return Pass;
    }

    /** Answers a query from the one index its filled-in fields select; the
        answer is the one Answer computes from `all` alone. */
    function Query(q: Release): (rs: seq<Release>)
      reads this
      requires Valid()
      ensures rs == Answer(all, q)
    {
      if q.container != "" && q.releaseChannel != "" then
        (if ToKey(q) in byBoth then [byBoth[ToKey(q)]] else [])
      else if q.container != "" then
        ListAt(byContainer, q.container)
      else if q.releaseChannel != "" then
        ListAt(byChannel, q.releaseChannel)
      else
        all
    }
  }

  /** What a query must return, stated on the write history alone: the last
      release for the key when both fields are set, the matching releases in
      write order when one is set, everything when neither is. */
  function Answer(all: seq<Release>, q: Release): seq<Release>
  {
    if q.container != "" && q.releaseChannel != "" then
      match LastByKey(all, ToKey(q))
      case Some(r) => [r]
      case None => []
    else if q.container != "" then
      Matching(all, ContainerFacet, q.container)
    else if q.releaseChannel != "" then
      Matching(all, ChannelFacet, q.releaseChannel)
    else
      all
  }

  /** A query with both fields set returns at most one release: one with the
      queried key that no later write for that key superseded, and nothing
      exactly when no release with that key was written. */
  lemma AnswerByKey(all: seq<Release>, q: Release)
    requires q.container != "" && q.releaseChannel != ""
    ensures |Answer(all, q)| <= 1
    ensures Answer(all, q) == [] <==> forall i :: 0 <= i < |all| ==> ToKey(all[i]) != ToKey(q)
    ensures Answer(all, q) != [] ==>
      exists i :: 0 <= i < |all| && all[i] == Answer(all, q)[0] &&
        all[i].container == q.container && all[i].releaseChannel == q.releaseChannel &&
        forall j :: i < j < |all| ==> ToKey(all[j]) != ToKey(q)
  {
    LastByKeyIsLast(all, ToKey(q));
  }

  /** A query on the container alone returns all and only that container's
      releases. */
  lemma AnswerByContainer(all: seq<Release>, q: Release, x: Release)
    requires q.container != "" && q.releaseChannel == ""
    ensures x in Answer(all, q) <==> x in all && x.container == q.container
  {
    MatchingMembers(all, ContainerFacet, q.container, x);
  }

  /** A query on the channel alone returns all and only that channel's
      releases; a query with neither field returns the whole history. */
  lemma AnswerByChannel(all: seq<Release>, q: Release, x: Release)
    requires q.container == ""
    ensures q.releaseChannel != "" ==>
      (x in Answer(all, q) <==> x in all && x.releaseChannel == q.releaseChannel)
    ensures q.releaseChannel == "" ==> Answer(all, q) == all
  {
    MatchingMembers(all, ChannelFacet, q.releaseChannel, x);
  }

  /** The indices of a valid store are determined by its write history: two
      stores that hold the same `all` agree on every index. */
  lemma IndicesDeterminedByHistory(a: InMem, b: InMem)
    requires a.Valid() && b.Valid() && a.all == b.all
    ensures a.byContainer == b.byContainer
    ensures a.byChannel == b.byChannel
    ensures a.byBoth == b.byBoth
  {
  }

  /** Two valid writes for one key: the history and the container list keep
      both, while the key and a query on it see only the second. */
  method DuplicateKeyWrites(r1: Release, r2: Release)
    returns (count: nat, latest: Option<Release>, byKey: seq<Release>, forContainer: seq<Release>)
    requires WellFormed(r1) && WellFormed(r2) && ToKey(r1) == ToKey(r2)
    ensures count == 2
    ensures latest == Some(r2)
    ensures byKey == [r2]
    ensures forContainer == [r1, r2]
  {
    var store := new InMem();
    var e1 := store.Write(r1);
    var e2 := store.Write(r2);
    assert store.all == [r1, r2];
    count := |store.all|;
    latest := if ToKey(r1) in store.byBoth then Some(store.byBoth[ToKey(r1)]) else None;
    LastByKeySnoc([r1], r2, ToKey(r1));
    byKey := store.Query(r1.(imagePath := ""));
    MatchingSnoc([r1], r2, ContainerFacet, r1.container);
    assert Matching([r1], ContainerFacet, r1.container) == [r1];
    forContainer := store.Query(Release(r1.container, "", ""));
  }

  /** Two valid writes with different keys: a query on either key returns
      exactly that release. */
  method DistinctKeyWrites(r1: Release, r2: Release) returns (first: seq<Release>, second: seq<Release>)
    requires WellFormed(r1) && WellFormed(r2) && ToKey(r1) != ToKey(r2)
    ensures first == [r1] && second == [r2]
  {
    var store := new InMem();
    var e1 := store.Write(r1);
    var e2 := store.Write(r2);
    first := store.Query(r1);
    second := store.Query(r2);
  }

  /** A write with an empty field fails with the first empty field's error and
      leaves the history length unchanged. */
  method RejectedWrite(r: Release) returns (err: Outcome<WriteError>, count: nat)
    requires !WellFormed(r)
    ensures err.Fail?
    ensures r.container == "" ==> err == Fail(ContainerNotSet)
    ensures count == 0
  {
    var store := new InMem();
    err := store.Write(r);
    count := |store.all|;
  }

  /** An example store: two releases of container "app", one per channel. */
  method ExampleQueries() returns (app: seq<Release>, appProd: seq<Release>, missing: seq<Release>)
    ensures app == [Release("app", "img:dev", "dev"), Release("app", "img:prod", "prod")]
    ensures appProd == [Release("app", "img:prod", "prod")]
    ensures missing == []
  {
    var dev := Release("app", "img:dev", "dev");
    var prod := Release("app", "img:prod", "prod");
    var store := new InMem();
    var e1 := store.Write(dev);
    var e2 := store.Write(prod);
    app := store.Query(Release("app", "", ""));
    appProd := store.Query(Release("app", "", "prod"));
    missing := store.Query(Release("missing", "", ""));
  }
}
