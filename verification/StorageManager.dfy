/** The storage manager of src/storage/storage_manager.c: the registry of backends, the choice
    of one of them, and reads and writes through that choice. */
module StorageManager {
  import opened Base
  import MockFiles
  import MockStorage

  const MAX_STORAGE_BACKENDS := 8

  datatype Kind = Nvmeof | Nfs | Local | Mock

  /** A storage_interface_t over a file store. A null function pointer is a false `has...`;
      `cleanups` counts the calls of its cleanup. */
  class Backend {
    const kind: Kind
    const hasHealthCheck: bool
    const hasCleanup: bool
    const store: MockStorage.MockStore
    var healthy: bool
    ghost var cleanups: nat

    constructor (kind: Kind, hasHealthCheck: bool, hasCleanup: bool, store: MockStorage.MockStore)
      ensures this.kind == kind && this.store == store && Usable() == hasHealthCheck && cleanups == 0
    {
      this.kind, this.hasHealthCheck, this.hasCleanup := kind, hasHealthCheck, hasCleanup;
      this.store, this.healthy, this.cleanups := store, true, 0;
    }

    predicate Usable()
      reads this
    {
      hasHealthCheck && healthy
    }

    /** Frees the private data, after which the health check fails. */
    method Cleanup()
      modifies this
      ensures hasCleanup ==> cleanups == old(cleanups) + 1 && !Usable()
      ensures !hasCleanup ==> unchanged(this)
    {
      if hasCleanup {
        cleanups := cleanups + 1;
        healthy := false;
      }
    }
  }

  // ---- the registry ---------------------------------------------------------------------

  /** The first backend of this kind, or their number. */
  function FindKind(list: seq<Backend>, kind: Kind): (i: nat)
    ensures i <= |list|
    ensures i < |list| ==> list[i].kind == kind
    ensures forall k :: 0 <= k < i ==> list[k].kind != kind
  {
    if list == [] then 0
    else if list[0].kind == kind then 0
    else 1 + FindKind(list[1..], kind)
  }

  /** The new list, the result, and the instance displaced, if any. */
  datatype Change = Change(list: seq<Backend>, status: Status, displaced: seq<Backend>)

  function Register(list: seq<Backend>, b: Backend): Change {
    var i := FindKind(list, b.kind);
    if |list| >= MAX_STORAGE_BACKENDS then Change(list, Error, [])
    else if i < |list| then Change(list[i := b], Ok, [list[i]])
    else Change(list + [b], Ok, [])
  }

  function Unregister(list: seq<Backend>, kind: Kind): Change {
    var i := FindKind(list, kind);
    if i == |list| then Change(list, NotFound, [])
    else Change(list[..i] + list[i + 1..], Ok, [list[i]])
  }

  datatype Request = Registers(b: Backend) | Unregisters(kind: Kind)

  function Serve(list: seq<Backend>, r: Request): Change {
    match r
    case Registers(b) => Register(list, b)
    case Unregisters(kind) => Unregister(list, kind)
  }

  ghost predicate DistinctKinds(list: seq<Backend>) {
    forall i, j :: 0 <= i < j < |list| ==> list[i].kind != list[j].kind
  }

  lemma {:induction false} KindsCount(list: seq<Backend>)
    requires DistinctKinds(list)
    ensures |KindsOf(list)| == |list|
    decreases |list|
  {
    if list != [] {
      var last := |list| - 1;
      KindsCount(list[..last]);
      assert KindsOf(list) == KindsOf(list[..last]) + {list[last].kind};
    }
  }

  ghost function KindsOf(list: seq<Backend>): set<Kind> {
    set i | 0 <= i < |list| :: list[i].kind
  }

  /** There are four kinds, so the limit of eight is out of reach. */
  lemma AtMostFour(list: seq<Backend>)
    requires DistinctKinds(list)
    ensures |list| <= 4
  {
    KindsCount(list);
    var all := {Nvmeof, Nfs, Local, Mock};
    forall kind: Kind
      ensures kind in all
    {
      match kind {
        case Nvmeof =>
        case Nfs =>
        case Local =>
        case Mock =>
      }
    }
    SubsetSize(KindsOf(list), all);
  }

  ghost function ListAfter(requests: seq<Request>): seq<Backend> {
    if requests == [] then []
    else Serve(ListAfter(requests[..|requests| - 1]), requests[|requests| - 1]).list
  }

  /** Every displacement so far. */
  ghost function DisplacedBy(requests: seq<Request>): multiset<Backend> {
    if requests == [] then multiset{}
    else
      var last := |requests| - 1;
      DisplacedBy(requests[..last]) + multiset(Serve(ListAfter(requests[..last]), requests[last]).displaced)
  }

  function Given(r: Request): seq<Backend> {
    if r.Registers? then [r.b] else []
  }

  /** Every registration so far. */
  ghost function RegisteredBy(requests: seq<Request>): multiset<Backend> {
    if requests == [] then multiset{}
    else RegisteredBy(requests[..|requests| - 1]) + multiset(Given(requests[|requests| - 1]))
  }

  lemma ServeFits(list: seq<Backend>, r: Request)
    requires DistinctKinds(list)
    ensures var c := Serve(list, r);
            && DistinctKinds(c.list) && |c.displaced| <= 1
            && (r.Registers? ==> c.status == Ok)
            && (r.Unregisters? ==> (c.status == Ok <==> FindKind(list, r.kind) < |list|))
  {
    AtMostFour(list);
    if r.Unregisters? {
      var i, rest := FindKind(list, r.kind), Serve(list, r).list;
      assert i < |list| ==> forall k :: 0 <= k < |rest| ==> rest[k] == list[if k < i then k else k + 1];
    }
  }

  lemma ServeConserves(list: seq<Backend>, r: Request)
    requires DistinctKinds(list)
    ensures var c := Serve(list, r);
            multiset(c.list) + multiset(c.displaced) == multiset(list) + multiset(Given(r))
  {
    AtMostFour(list);
    var i := FindKind(list, if r.Registers? then r.b.kind else r.kind);
    if i < |list| {
      TakenOut(list, i);
      if r.Registers? {
        PutIn(list, i, r.b);
      }
    }
  }

  lemma TakenOut<T>(s: seq<T>, i: nat)
    requires i < |s|
    ensures multiset(s[..i] + s[i + 1..]) + multiset([s[i]]) == multiset(s)
  {
    assert s == s[..i] + [s[i]] + s[i + 1..];
  }

  lemma PutIn<T>(s: seq<T>, i: nat, x: T)
    requires i < |s|
    ensures multiset(s[i := x]) + multiset([s[i]]) == multiset(s) + multiset([x])
  {
    TakenOut(s, i);
    TakenOut(s[i := x], i);
    assert s[i := x][..i] + s[i := x][i + 1..] == s[..i] + s[i + 1..];
  }

  /** A registration takes the place of the backend of its kind, which is displaced, or goes to
      the end if there is none; every other backend stays in its place. */
  lemma RegistersExactly(list: seq<Backend>, b: Backend)
    requires DistinctKinds(list)
    ensures forall i :: 0 <= i < |list| && list[i].kind == b.kind ==>
              Register(list, b) == Change(list[i := b], Ok, [list[i]])
    ensures (forall i :: 0 <= i < |list| ==> list[i].kind != b.kind) ==>
              Register(list, b) == Change(list + [b], Ok, [])
  {
    AtMostFour(list);
  }

  /** A removal finds a backend if and only if one of the kind is listed. That one is displaced;
      afterwards none has the kind, and the others are listed as before, in the same order. */
  lemma UnregistersExactly(list: seq<Backend>, kind: Kind)
    requires DistinctKinds(list)
    ensures var c := Unregister(list, kind);
            && (c.status == Ok <==> exists i :: 0 <= i < |list| && list[i].kind == kind)
            && (c.status != Ok ==> c == Change(list, NotFound, []))
            && (forall i :: 0 <= i < |list| && list[i].kind == kind ==>
                  c == Change(list[..i] + list[i + 1..], Ok, [list[i]]))
            && (forall b :: b in c.list ==> b.kind != kind)
            && (forall b :: b in list && b.kind != kind ==> b in c.list)
            && (forall b :: b in c.displaced ==> b in list && b.kind == kind)
  {
    var i, c := FindKind(list, kind), Unregister(list, kind);
    if i < |list| {
      forall b | b in list && b.kind != kind
        ensures b in c.list
      {
        var k :| 0 <= k < |list| && list[k] == b;
        assert c.list[if k < i then k else k - 1] == b;
      }
    }
  }

  /** What is listed of one kind. */
  function Listed(list: seq<Backend>, kind: Kind): Option<Backend> {
    var i := FindKind(list, kind);
    if i < |list| then Some(list[i]) else None
  }

  /** The latest registration of the kind, unless a removal of the kind came after it. */
  function Latest(requests: seq<Request>, kind: Kind): Option<Backend> {
    if requests == [] then None
    else
      match requests[|requests| - 1]
      case Registers(b) => if b.kind == kind then Some(b) else Latest(requests[..|requests| - 1], kind)
      case Unregisters(k) => if k == kind then None else Latest(requests[..|requests| - 1], kind)
  }

  lemma ListedOnly(list: seq<Backend>, kind: Kind)
    requires DistinctKinds(list)
    ensures forall b :: b in list && b.kind == kind <==> Listed(list, kind) == Some(b)
  {
  }

  lemma ServeLists(list: seq<Backend>, r: Request, kind: Kind)
    requires DistinctKinds(list)
    ensures Listed(Serve(list, r).list, kind)
            == match r
               case Registers(b) => if b.kind == kind then Some(b) else Listed(list, kind)
               case Unregisters(k) => if k == kind then None else Listed(list, kind)
  {
    hide Unregister, Register;
    var after := Serve(list, r).list;
    ServeFits(list, r);
    ListedOnly(list, kind);
    ListedOnly(after, kind);
    match r {
      case Registers(b) =>
        RegistersExactly(list, b);
        RegistersOthers(list, b, kind);
      case Unregisters(k) => UnregistersExactly(list, k);
    }
  }

  lemma RegistersOthers(list: seq<Backend>, b: Backend, kind: Kind)
    requires DistinctKinds(list)
    ensures b in Register(list, b).list
    ensures forall d: Backend :: d.kind != b.kind ==> (d in Register(list, b).list <==> d in list)
  {
    AtMostFour(list);
    var i, after := FindKind(list, b.kind), Register(list, b).list;
    assert i < |list| ==> after[i] == b;
    forall d: Backend | d in list && d.kind != b.kind
      ensures d in after
    {
      var k :| 0 <= k < |list| && list[k] == d;
      assert after[k] == d;
    }
  }

  /** After any requests the backend listed of a kind is the one last registered of it, if no
      removal of the kind came later, and none otherwise. */
  lemma {:induction false} ListedIsLatest(requests: seq<Request>, kind: Kind)
    ensures Listed(ListAfter(requests), kind) == Latest(requests, kind)
    decreases |requests|
  {
    hide Serve, Listed;
    if requests == [] {
      NothingListed(kind);
    } else {
      var last := |requests| - 1;
      ListedIsLatest(requests[..last], kind);
      ListFits(requests[..last]);
      ServeLists(ListAfter(requests[..last]), requests[last], kind);
    }
  }

  lemma NothingListed(kind: Kind)
    ensures Listed([], kind) == None
  {
  }

  lemma {:induction false} ListFits(requests: seq<Request>)
    ensures DistinctKinds(ListAfter(requests)) && |ListAfter(requests)| <= 4
    decreases |requests|
  {
    hide Serve, DistinctKinds;
    if requests == [] {
      NoKinds();
    } else {
      ListFits(requests[..|requests| - 1]);
      ServeFits(ListAfter(requests[..|requests| - 1]), requests[|requests| - 1]);
    }
    AtMostFour(ListAfter(requests));
  }

  lemma NoKinds()
    ensures DistinctKinds([])
  {
  }

  /** After any requests: the kinds are distinct, so at most four backends are listed and the
      limit is never reached; and each registration made is accounted for exactly once, by an
      instance still listed or by one displacement. */
  lemma {:induction false} RegistryConserves(requests: seq<Request>)
    ensures DistinctKinds(ListAfter(requests)) && |ListAfter(requests)| <= 4
    ensures RegisteredBy(requests) == multiset(ListAfter(requests)) + DisplacedBy(requests)
    decreases |requests|
  {
    hide Serve, DistinctKinds, Given;
    ListFits(requests);
    if requests != [] {
      var last := |requests| - 1;
      RegistryConserves(requests[..last]);
      ListFits(requests[..last]);
      var before := ListAfter(requests[..last]);
      var c := Serve(before, requests[last]);
      ServeConserves(before, requests[last]);
      Balance(multiset(before), DisplacedBy(requests[..last]), multiset(c.list), multiset(c.displaced),
              multiset(Given(requests[last])));
    } else {
      assert multiset(ListAfter(requests)) == multiset{};
    }
  }

  lemma Balance<T>(l: multiset<T>, d: multiset<T>, l': multiset<T>, d': multiset<T>, given: multiset<T>)
    requires l' + d' == l + given
    ensures (l + d) + given == l' + (d + d')
  {
    assert (l + d) + given == (l + given) + d;
    assert l' + (d + d') == (l' + d') + d;
  }

  /** No registration is ever refused. */
  lemma RegistrationSucceeds(requests: seq<Request>, b: Backend)
    ensures Register(ListAfter(requests), b).status == Ok && b in Register(ListAfter(requests), b).list
  {
    RegistryConserves(requests);
    var list := ListAfter(requests);
    assert Register(list, b).list[FindKind(list, b.kind)] == b;
  }

  /** So an instance registered once is listed and never displaced, or was displaced once. */
  lemma RegisteredOnce(requests: seq<Request>, b: Backend)
    requires RegisteredBy(requests)[b] == 1
    ensures DisplacedBy(requests)[b] == if b in ListAfter(requests) then 0 else 1
  {
    RegistryConserves(requests);
  }

  /** An instance still listed was never cleaned if and only if it was registered once. */
  lemma ListedIsUncleanedExactly(requests: seq<Request>, b: Backend)
    requires b in ListAfter(requests)
    ensures DisplacedBy(requests)[b] == 0 <==> RegisteredBy(requests)[b] == 1
  {
    RegistryConserves(requests);
    ListedOnce(requests, b);
  }

  lemma ListedOnce(requests: seq<Request>, b: Backend)
    requires b in ListAfter(requests)
    ensures multiset(ListAfter(requests))[b] == 1
  {
    RegistryConserves(requests);
    var list := ListAfter(requests);
    var i :| 0 <= i < |list| && list[i] == b;
    TakenOut(list, i);
    assert b !in list[..i] + list[i + 1..];
  }

  /** The same instance registered twice: it is displaced by itself and stays listed. */
  lemma RegisteredTwice(b: Backend)
    ensures ListAfter([Registers(b), Registers(b)]) == [b]
    ensures DisplacedBy([Registers(b), Registers(b)]) == multiset{b}
  {
    var r := Registers(b);
    assert [r, r][..1] == [r] && [r][..0] == [];
    assert ListAfter([r]) == [b] && DisplacedBy([r]) == multiset{};
    assert [b][0 := b] == [b] && multiset([b]) == multiset{b};
  }

  // ---- choosing -------------------------------------------------------------------------

  /** The first usable backend of a kind (of any kind when None), or their number. */
  ghost function FirstUsable(list: seq<Backend>, kind: Option<Kind>): (i: nat)
    reads list
    ensures i <= |list|
    ensures i < |list| ==> list[i].Usable() && (kind.None? || list[i].kind == kind.value)
    ensures forall k :: 0 <= k < i ==> !(list[k].Usable() && (kind.None? || list[k].kind == kind.value))
  {
    if list == [] then 0
    else if list[0].Usable() && (kind.None? || list[0].kind == kind.value) then 0
    else 1 + FirstUsable(list[1..], kind)
  }

  datatype Policy = Policy(primary: Kind, fallback: Kind, autoFailover: bool)

  ghost function Choice(list: seq<Backend>, policy: Policy): (i: nat)
    reads list
    ensures i <= |list|
  {
    var p, f := FirstUsable(list, Some(policy.primary)), FirstUsable(list, Some(policy.fallback));
    if p < |list| then p
    else if policy.autoFailover && f < |list| then f
    else FirstUsable(list, None)
  }

  /** A backend is chosen if and only if some backend is usable, and the one chosen is usable;
      it is of the primary kind if any of that kind is usable, and otherwise of the fallback
      kind if failover is on and any of that is, and otherwise the first usable one of all. */
  lemma ChoiceIsBest(list: seq<Backend>, policy: Policy)
    ensures var c := Choice(list, policy);
            && (c < |list| <==> exists i :: 0 <= i < |list| && list[i].Usable())
            && (c < |list| ==> list[c].Usable())
            && forall i :: 0 <= i < |list| && list[i].Usable() ==>
                 && (list[i].kind == policy.primary ==> list[c].kind == policy.primary)
                 && (policy.autoFailover && list[i].kind == policy.fallback ==>
                       list[c].kind == policy.primary || list[c].kind == policy.fallback)
                 && (list[c].kind != policy.primary && !(policy.autoFailover && list[c].kind == policy.fallback) ==>
                       c <= i)
  {
    var any := FirstUsable(list, None);
    assert any < |list| ==> list[any].Usable();
  }

  datatype Stats = Stats(readOps: nat, readBytes: nat, writeOps: nat, writeBytes: nat, errors: nat)

  function CountRead(s: Stats, status: Status, size: nat): Stats {
    if status == Ok then s.(readOps := s.readOps + 1, readBytes := s.readBytes + size)
    else s.(errors := s.errors + 1)
  }

  function CountWrite(s: Stats, status: Status, size: nat): Stats {
    if status == Ok then s.(writeOps := s.writeOps + 1, writeBytes := s.writeBytes + size)
    else s.(errors := s.errors + 1)
  }

  /** A read or write that reached a backend. */
  datatype Access = Access(isRead: bool, status: Status, size: nat)

  function StatsAfter(accesses: seq<Access>): Stats {
    if accesses == [] then Stats(0, 0, 0, 0, 0)
    else
      var last, before := accesses[|accesses| - 1], StatsAfter(accesses[..|accesses| - 1]);
      if last.isRead then CountRead(before, last.status, last.size) else CountWrite(before, last.status, last.size)
  }

  datatype Sort = GoodRead | GoodWrite | Failed

  function SortOf(a: Access): Sort {
    if a.status != Ok then Failed else if a.isRead then GoodRead else GoodWrite
  }

  function Sorts(accesses: seq<Access>): seq<Sort> {
    seq(|accesses|, i requires 0 <= i < |accesses| => SortOf(accesses[i]))
  }

  function Bytes(accesses: seq<Access>, isRead: bool): nat {
    if accesses == [] then 0
    else
      var last := accesses[|accesses| - 1];
      Bytes(accesses[..|accesses| - 1], isRead) + if last.isRead == isRead && last.status == Ok then last.size else 0
  }

  /** The statistics count the reads and the writes that succeeded and the bytes asked for by
      them, and together the accesses that failed. */
  lemma {:induction false} StatsCount(accesses: seq<Access>)
    ensures var stats, sorts := StatsAfter(accesses), multiset(Sorts(accesses));
            && stats.readOps == sorts[GoodRead] && stats.readBytes == Bytes(accesses, true)
            && stats.writeOps == sorts[GoodWrite] && stats.writeBytes == Bytes(accesses, false)
            && stats.errors == sorts[Failed]
    decreases |accesses|
  {
    if accesses != [] {
      var last := |accesses| - 1;
      StatsCount(accesses[..last]);
      assert Sorts(accesses) == Sorts(accesses[..last]) + [SortOf(accesses[last])];
    }
  }

  class Manager {
    const backends: array<Backend?>
    var backendCount: nat
    var policy: Policy
    var stats: Stats
    ghost var list: seq<Backend>

    /** Everything the listed stores are made of. */
    ghost var footprint: set<object>

    ghost function Slot(i: nat): Backend?
      reads this
    {
      if i < |list| then list[i] else null
    }

    ghost predicate RegistryValid()
      reads this, backends
    {
      && backends.Length == MAX_STORAGE_BACKENDS
      && backendCount == |list| <= MAX_STORAGE_BACKENDS
      && (forall i :: 0 <= i < MAX_STORAGE_BACKENDS ==> backends[i] == Slot(i))
      && DistinctKinds(list)
    }

    /** A backend brings a store of its own. */
    ghost predicate Apart(b: Backend)
      reads this`list, this`footprint, set d | d in list :: d.store, b.store
    {
      && b !in footprint && b !in b.store.Repr
      && this !in b.store.Repr && backends !in b.store.Repr
      && (forall d :: d in list ==> d !in b.store.Repr && (d != b ==> d.store.Repr !! b.store.Repr))
    }

    constructor ()
      ensures Valid() && list == [] && footprint == {} && fresh(backends)
      ensures policy == Policy(Local, Mock, true) && stats == Stats(0, 0, 0, 0, 0)
    {
      backends := new Backend?[MAX_STORAGE_BACKENDS](_ => null);
      backendCount := 0;
      policy := Policy(Local, Mock, true);
      stats := Stats(0, 0, 0, 0, 0);
      list := [];
      footprint := {};
    }

    method RegisterBackend(b: Backend) returns (status: Status)
      requires Valid() && b.store.Valid() && Apart(b)
      modifies this`list, this`backendCount, this`footprint, backends, list
      ensures Valid()
      ensures var c := Register(old(list), b);
              && list == c.list && status == c.status
              && (forall d :: d in old(list) && d.hasCleanup ==>
                    d.cleanups == old(d.cleanups) + if d in c.displaced then 1 else 0)
              && (forall d :: d in old(list) && (d !in c.displaced || !d.hasCleanup) ==> unchanged(d))
              && (forall d :: d in c.displaced && d.hasCleanup ==> !d.Usable())
    {
      ServeFits(list, Registers(b));
      if backendCount >= MAX_STORAGE_BACKENDS {
        return Error;
      }
      var i := IndexOf(b.kind);
      if i < backendCount {
        Replace(i, b);
      } else {
        Add(b);
      }
      return Ok;
    }

    method IndexOf(kind: Kind) returns (i: nat)
      requires RegistryValid()
      ensures i == FindKind(list, kind)
    {
      i := 0;
      while i < backendCount
        invariant 0 <= i <= backendCount
        invariant forall k :: 0 <= k < i ==> list[k].kind != kind
      {
        if backends[i].kind == kind {
          return;
        }
        i := i + 1;
      }
    }

    method Replace(i: nat, b: Backend)
      requires Valid() && b.store.Valid() && Apart(b) && i < |list| && list[i].kind == b.kind
      modifies this`list, this`footprint, backends, list[i]
      ensures Valid() && footprint == old(footprint) + b.store.Repr && list == old(list)[i := b]
      ensures old(list)[i].hasCleanup ==> old(list)[i].cleanups == old(list[i].cleanups) + 1 && !old(list)[i].Usable()
      ensures !old(list)[i].hasCleanup ==> unchanged(old(list)[i])
    {
      backends[i].Cleanup();
      backends[i] := b;
      list := list[i := b];
      footprint := footprint + b.store.Repr;
    }

    method Add(b: Backend)
      requires Valid() && b.store.Valid() && Apart(b) && |list| < MAX_STORAGE_BACKENDS
      requires FindKind(list, b.kind) == |list|
      modifies this`list, this`footprint, this`backendCount, backends
      ensures Valid() && footprint == old(footprint) + b.store.Repr && list == old(list) + [b]
    {
      hide FindKind;
      backends[backendCount] := b;
      backendCount := backendCount + 1;
      list := list + [b];
      footprint := footprint + b.store.Repr;
    }

    method UnregisterBackend(kind: Kind) returns (status: Status)
      requires Valid()
      modifies this`list, this`backendCount, backends, list
      ensures Valid()
      ensures var c := Unregister(old(list), kind);
              && list == c.list && status == c.status
              && (forall d :: d in old(list) && d.hasCleanup ==>
                    d.cleanups == old(d.cleanups) + if d in c.displaced then 1 else 0)
              && (forall d :: d in old(list) && (d !in c.displaced || !d.hasCleanup) ==> unchanged(d))
              && (forall d :: d in c.displaced && d.hasCleanup ==> !d.Usable())
    {
      hide FindKind;
      ServeFits(list, Unregisters(kind));
      var i := IndexOf(kind);
      if i == backendCount {
        return NotFound;
      }
      backends[i].Cleanup();
      ShiftDown(i);
      return Ok;
    }

    method ShiftDown(i: nat)
      requires RegistryValid() && i < backendCount
      modifies this`list, this`backendCount, backends
      ensures RegistryValid() && list == old(list[..i] + list[i + 1..])
    {
      var j := i;
      ghost var slots, was := backends[..], list;
      while j < backendCount - 1
        modifies backends
        invariant i <= j <= backendCount - 1
        invariant forall k :: 0 <= k < i || j <= k < MAX_STORAGE_BACKENDS ==> backends[k] == slots[k]
        invariant forall k :: i <= k < j ==> backends[k] == slots[k + 1]
      {
        backends[j] := backends[j + 1];
        j := j + 1;
      }
      backendCount := backendCount - 1;
      backends[backendCount] := null;
      list := was[..i] + was[i + 1..];
      assert forall k :: 0 <= k < |list| ==> list[k] == was[if k < i then k else k + 1];
    }

    method FirstOf(kind: Option<Kind>) returns (b: Backend?)
      requires RegistryValid()
      ensures var i := FirstUsable(list, kind); b == if i < |list| then list[i] else null
    {
      var i := 0;
      assert list[0..] == list;
      while i < backendCount
        invariant 0 <= i <= backendCount
        invariant FirstUsable(list, kind) == i + FirstUsable(list[i..], kind)
      {
        if (kind.None? || backends[i].kind == kind.value) && backends[i].Usable() {
          return backends[i];
        }
        assert list[i..][1..] == list[i + 1..];
        i := i + 1;
      }
      return null;
    }

    method SelectBackend() returns (b: Backend?)
      requires RegistryValid()
      ensures b == Chosen() && (b != null ==> b in list)
    {
      if backendCount == 0 {
        return null;
      }
      b := FirstOf(Some(policy.primary));
      if b == null && policy.autoFailover {
        b := FirstOf(Some(policy.fallback));
      }
      if b == null {
        b := FirstOf(None);
      }
    }

    // ---- reading and writing through the choice -----------------------------------------

    /** The registry is sound and the listed stores are valid and share nothing. */
    ghost predicate Valid()
      reads this, backends, footprint
    {
      && RegistryValid()
      && this !in footprint && backends !in footprint
      && (forall b :: b in list ==>
            b !in footprint && b.store in footprint && b.store.Repr <= footprint && b.store.Valid())
      && (forall b, d :: b in list && d in list && b != d ==> b.store.Repr !! d.store.Repr)
    }

    /** The backend that reads and writes go to, if any is usable. */
    ghost function Chosen(): Backend?
      reads this`list, this`policy, list
    {
      var c := Choice(list, policy);
      if c < |list| then list[c] else null
    }

    method Write(path: string, offset: nat, data: seq<byte>, fault: bool, memory: bool) returns (status: Status)
      requires Valid()
      modifies this`stats, this`footprint, footprint
      ensures Valid() && fresh(footprint - old(footprint)) && Chosen() == old(Chosen())
      ensures forall b :: b in list && b != Chosen() ==> b.store.View() == old(b.store.View())
      ensures var b := Chosen();
              if |data| == 0 then status == InvalidParam && unchanged(this) && unchanged(footprint)
              else if b == null then status == Error && unchanged(this) && unchanged(footprint)
              else
                && MockFiles.Sized(old(Chosen().store.View()))
                && (b.store.View(), status)
                   == MockFiles.Write(old(Chosen().store.View()), path, offset, data, fault, memory)
                && stats == CountWrite(old(stats), status, |data|)
    {
      hide Choice, MockFiles.Write;
      if |data| == 0 {
        return InvalidParam;
      }
      var backend := SelectBackend();
      if backend == null {
        return Error;
      }
      status := WriteTo(backend, path, offset, data, fault, memory);
      stats := CountWrite(stats, status, |data|);
    }

    method WriteTo(b: Backend, path: string, offset: nat, data: seq<byte>, fault: bool, memory: bool)
      returns (status: Status)
      requires Valid() && b in list
      modifies this`footprint, footprint
      ensures Valid() && fresh(footprint - old(footprint))
      ensures MockFiles.Sized(old(b.store.View()))
      ensures (b.store.View(), status) == MockFiles.Write(old(b.store.View()), path, offset, data, fault, memory)
      ensures forall d :: d in list && d != b ==> d.store.View() == old(d.store.View())
    {
      status := b.store.WriteSync(path, offset, data, fault, memory);
      footprint := footprint + b.store.Repr;
      assert forall d :: d in list && d != b ==> old(b.store.Repr !! d.store.Repr) && d.store.Repr == old(d.store.Repr);
    }

    method Read(path: string, offset: nat, buffer: array<byte>, size: nat, fault: bool) returns (status: Status)
      requires Valid() && size <= buffer.Length && buffer as object !in footprint + {backends}
      modifies this`stats, buffer
      ensures Valid() && Chosen() == old(Chosen())
      ensures var b := Chosen();
              if size == 0 then status == InvalidParam && unchanged(this) && unchanged(buffer)
              else if b == null then status == Error && unchanged(this) && unchanged(buffer)
              else
                && MockFiles.Sized(b.store.View())
                && stats == CountRead(old(stats), status, size)
                && var (st, bytes) := MockFiles.Read(b.store.View(), path, offset, size, fault);
                   status == st && buffer[..] == if st == Ok then bytes + old(buffer[size..]) else old(buffer[..])
    {
      hide Choice, MockFiles.Read;
      if size == 0 {
        return InvalidParam;
      }
      var backend := SelectBackend();
      if backend == null {
        return Error;
      }
      status := ReadFrom(backend, path, offset, buffer, size, fault);
      stats := CountRead(stats, status, size);
    }

    method ReadFrom(b: Backend, path: string, offset: nat, buffer: array<byte>, size: nat, fault: bool)
      returns (status: Status)
      requires Valid() && b in list && size <= buffer.Length && buffer as object !in footprint + {backends}
      modifies buffer
      ensures Valid() && MockFiles.Sized(b.store.View())
      ensures var (st, bytes) := MockFiles.Read(b.store.View(), path, offset, size, fault);
              status == st && buffer[..] == if st == Ok then bytes + old(buffer[size..]) else old(buffer[..])
    {
      hide MockFiles.Read, DistinctKinds;
      status := b.store.ReadSync(path, offset, buffer, size, fault);
      forall d | d in list
        ensures d.store.Valid()
      {
        assert old(d.store.Valid()) && buffer !in d.store.Repr;
      }
    }
  }
}
