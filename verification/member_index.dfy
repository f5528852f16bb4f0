/** The members of an object, found by a scan of the member array or through a multimap of names. */
module MemberIndex {
  import opened JsonText
  import opened JsonValue

  const DEFAULT_CAPACITY: nat := 16

  /** The capacity after the present one. */
  function GrownCapacity(capacity: nat): (c: nat)
    ensures capacity < c
    ensures capacity == 0 ==> c == 16
    ensures 0 < capacity ==> 3 * capacity <= 2 * c <= 3 * capacity + 1
  {
    if capacity == 0 then DEFAULT_CAPACITY else capacity + (capacity + 1) / 2
  }

  function Max(a: nat, b: nat): nat {
    if a <= b then b else a
  }

  // ---------- what the operations do to the members ----------

  /** The last member takes the place of the removed one. */
  function SwapRemoved(ms: seq<Member>, i: nat): seq<Member>
    requires i < |ms|
  {
    ms[i := ms[|ms| - 1]][..|ms| - 1]
  }

  function RangeErased(ms: seq<Member>, first: nat, last: nat): seq<Member>
    requires first <= last <= |ms|
  {
    ms[..first] + ms[last..]
  }

  /** Where a lookup may end: at a member with the name, or at the end if there is none. */
  predicate Finds(ms: seq<Member>, name: string, i: nat) {
    && i <= |ms|
    && (i < |ms| ==> ms[i].name == name)
    && (i == |ms| ==> forall j | 0 <= j < |ms| :: ms[j].name != name)
  }

  // ---------- closing a gap ----------

  /** The first k items behind last have been copied to first and on. */
  predicate Shifted<T(==)>(now: seq<T>, was: seq<T>, first: nat, last: nat, k: nat)
    requires first <= last && last + k <= |was|
  {
    && |now| == |was|
    && now[..first + k] == was[..first] + was[last..last + k]
    && now[last + k..] == was[last + k..]
  }

  lemma ShiftStart<T>(was: seq<T>, first: nat, last: nat)
    requires first <= last <= |was|
    ensures Shifted(was, was, first, last, 0)
  {}

  lemma NothingMoves<T>(was: seq<T>, first: nat)
    requires first <= |was|
    ensures Shifted(was, was, first, first, |was| - first)
  {}

  lemma ShiftStep<T>(now: seq<T>, was: seq<T>, first: nat, last: nat, k: nat)
    requires first <= last && last + k < |was| && Shifted(now, was, first, last, k)
    ensures |now| == |was| && now[last + k] == was[last + k]
    ensures Shifted(now[first + k := was[last + k]], was, first, last, k + 1)
  {
    assert now[last + k] == now[last + k..][0];
    var next := now[first + k := was[last + k]];
    assert next[..first + k + 1] == now[..first + k] + [was[last + k]];
    assert next[last + k + 1..] == now[last + k..][1..];
  }

  lemma ShiftEnd<T>(now: seq<T>, was: seq<T>, first: nat, last: nat)
    requires first <= last <= |was| && Shifted(now, was, first, last, |was| - last)
    ensures |now| == |was| && now[..|was| - (last - first)] == was[..first] + was[last..]
  {}

  // ---------- linear scan ----------

  class ScanObject {
    var members: array<Member>
    var size: nat

    ghost predicate Valid()
      reads this
    {
      size <= members.Length
    }

    ghost function Contents(): (ms: seq<Member>)
      requires Valid()
      reads this, members
      ensures |ms| == size
    {
      members[..size]
    }

    constructor ()
      ensures Valid() && Contents() == [] && fresh(members) && members.Length == 0
    {
      members := new Member[0];
      size := 0;
    }

    method Reserve(capacity: nat)
      requires Valid()
      modifies this
      ensures Valid() && Contents() == old(Contents()) && size == old(size)
      ensures members.Length == Max(capacity, old(members.Length))
      ensures members == old(members) || fresh(members)
    {
      if capacity > members.Length {
        var grown := new Member[capacity];
        for i := 0 to size
          invariant members == old(members) && size == old(size)
          invariant grown[..i] == members[..i]
        {
          grown[i] := members[i];
        }
        members := grown;
      }
    }

    method Add(m: Member)
      requires Valid() && (size == members.Length ==> GrownCapacity(size) < SIZE_LIMIT)
      modifies this, members
      ensures Valid() && Contents() == old(Contents()) + [m]
      ensures members.Length <= Max(old(members.Length), GrownCapacity(old(size)))
      ensures members == old(members) || fresh(members)
    {
      if size >= members.Length {
        Reserve(GrownCapacity(members.Length));
      }
      members[size] := m;
      size := size + 1;
    }

    method Find(name: string) returns (i: nat)
      requires Valid()
      ensures i == JsonValue.Find(Contents(), name)
    {
      i := 0;
      while i < size && members[i].name != name
        invariant i <= size && forall j | 0 <= j < i :: members[j].name != name
      {
        i := i + 1;
      }
      FindIs(Contents(), name, i);
    }

    method Remove(i: nat)
      requires Valid() && i < size
      modifies this, members
      ensures Valid() && Contents() == SwapRemoved(old(Contents()), i)
      ensures members == old(members)
    {
      var last := size - 1;
      if size > 1 && i != last {
        members[i] := members[last];
      }
      size := size - 1;
    }

    method Erase(first: nat, last: nat)
      requires Valid() && 0 < size && first <= last <= size
      modifies this, members
      ensures Valid() && Contents() == RangeErased(old(Contents()), first, last)
      ensures members == old(members)
    {
      hide Shifted;
      ghost var ms := Contents();
      ShiftStart(ms, first, last);
      for k := 0 to size - last
        invariant members == old(members) && size == old(size)
        invariant Shifted(members[..size], ms, first, last, k)
      {
        ShiftStep(members[..size], ms, first, last, k);
        assert members[last + k] == members[..size][last + k];
        ghost var ms' := members[..size];
        members[first + k] := members[last + k];
        assert members[..size] == ms'[first + k := ms[last + k]];
      }
      ShiftEnd(members[..size], ms, first, last);
      size := size - (last - first);
      assert members[..size] == members[..size + (last - first)][..size];
    }
  }

  lemma FindIs(ms: seq<Member>, name: string, i: nat)
    requires i <= |ms| && (forall j | 0 <= j < i :: ms[j].name != name) && (i < |ms| ==> ms[i].name == name)
    ensures Find(ms, name) == i
  {}

  // ---------- names in a multimap ----------

  /** An entry of the multimap: a name and the position of its member. */
  datatype Node = Node(key: string, pos: nat)

  /** Entry i of the iterator array leads to the name and the position of member i, and there are no
      other entries in the multimap. */
  predicate Indexed(ms: seq<Member>, ids: seq<nat>, nodes: map<nat, Node>, next: nat) {
    && |ids| == |ms|
    && (forall i | 0 <= i < |ms| :: ids[i] in nodes && nodes[ids[i]] == Node(ms[i].name, i))
    && (forall id | id in nodes :: id < next && nodes[id].pos < |ms| && ids[nodes[id].pos] == id)
  }

  class MapObject {
    var members: array<Member>
    var iterators: array<nat>
    var size: nat
    /** The multimap; an iterator is the identity of its entry. */
    var nodes: map<nat, Node>
    var next: nat

    ghost predicate Valid()
      reads this, members, iterators
    {
      size <= members.Length == iterators.Length && Indexed(members[..size], iterators[..size], nodes, next)
    }

    ghost function Contents(): (ms: seq<Member>)
      requires Valid()
      reads this, members, iterators
      ensures |ms| == size
    {
      members[..size]
    }

    constructor ()
      ensures Valid() && Contents() == [] && fresh(members) && fresh(iterators) && members.Length == 0
    {
      members := new Member[0];
      iterators := new nat[0];
      size := 0;
      nodes := map[];
      next := 0;
    }

    method Find(name: string) returns (i: nat)
      requires Valid()
      ensures Finds(Contents(), name, i)
    {
      ghost var ms, ids := Contents(), iterators[..size];
      if id :| id in nodes && nodes[id].key == name {
        i := nodes[id].pos;
        assert ids[i] == id;
      } else {
        i := size;
        forall j | 0 <= j < |ms| ensures ms[j].name != name { assert nodes[ids[j]].key == ms[j].name; }
      }
    }

    /** The entries counted are the members: the copy takes as many as the multimap holds. */
    method Reserve(capacity: nat)
      requires Valid()
      modifies this
      ensures Valid() && Contents() == old(Contents()) && size == old(size)
      ensures members.Length == Max(capacity, old(members.Length))
      ensures (members == old(members) && iterators == old(iterators)) || (fresh(members) && fresh(iterators))
    {
      if capacity > members.Length {
        var grown := new Member[capacity];
        var moved := new nat[capacity];
        var count := |nodes|;
        CountEntries(members[..size], iterators[..size], nodes, next);
        hide Indexed;
        for i := 0 to count
          invariant members == old(members) && iterators == old(iterators)
          invariant size == old(size) && nodes == old(nodes) && next == old(next)
          invariant grown[..i] == members[..i] && moved[..i] == iterators[..i]
        {
          grown[i] := members[i];
          moved[i] := iterators[i];
        }
        members, iterators := grown, moved;
      }
    }

    method Add(m: Member)
      requires Valid() && (size == members.Length ==> GrownCapacity(size) < SIZE_LIMIT)
      modifies this, members, iterators
      ensures Valid() && Contents() == old(Contents()) + [m]
      ensures members.Length <= Max(old(members.Length), GrownCapacity(old(size)))
      ensures (members == old(members) && iterators == old(iterators)) || (fresh(members) && fresh(iterators))
    {
      hide Indexed;
      if size >= members.Length {
        Reserve(GrownCapacity(members.Length));
      }
      IndexedAdd(members[..size], iterators[..size], nodes, next, m);
      members[size] := m;
      nodes := nodes[next := Node(m.name, size)];
      iterators[size] := next;
      next := next + 1;
      size := size + 1;
      assert members[..size] == members[..size - 1] + [m];
      assert iterators[..size] == iterators[..size - 1] + [next - 1];
    }

    method Remove(i: nat)
      requires Valid() && i < size
      modifies this, members, iterators
      ensures Valid() && Contents() == SwapRemoved(old(Contents()), i)
      ensures members == old(members) && iterators == old(iterators)
    {
      IndexedRemove(members[..size], iterators[..size], nodes, next, i);
      hide Indexed;
      ghost var ms, ids := members[..size], iterators[..size];
      nodes := nodes - {iterators[i]};
      var last := size - 1;
      if size > 1 && i != last {
        iterators[i] := iterators[last];
        nodes := nodes[iterators[i] := nodes[iterators[i]].(pos := i)];
        members[i] := members[last];
      }
      size := size - 1;
      assert members[..size] == SwapRemoved(ms, i);
      assert iterators[..size] == ids[i := ids[|ids| - 1]][..|ids| - 1];
    }

    method DropEntries(first: nat, last: nat)
      requires Valid() && first <= last <= size
      modifies this`nodes
      ensures Moving(old(nodes), nodes, first, last, 0)
    {
      ghost var ids := iterators[..size];
      for i := first to last
        invariant Moving(old(nodes), nodes, first, i, 0)
      {
        assert ids[i] == iterators[i];
        nodes := nodes - {iterators[i]};
      }
    }

    method Erase(first: nat, last: nat)
      requires Valid() && 0 < size && first <= last <= size
      modifies this, members, iterators
      ensures Valid() && Contents() == RangeErased(old(Contents()), first, last)
      ensures members == old(members) && iterators == old(iterators)
    {
      hide Indexed, Moving, Shifted;
      ghost var ms, ids, nodes0 := members[..size], iterators[..size], nodes;
      DropEntries(first, last);
      if first != last {
        MoveUp(first, last, nodes0);
      } else {
        NothingMoves(ms, first);
        NothingMoves(ids, first);
      }
      Moved(ms, ids, nodes0, nodes, next, first, last);
      ShiftEnd(members[..size], ms, first, last);
      ShiftEnd(iterators[..size], ids, first, last);
      size := size - (last - first);
      assert members[..size] == members[..size + (last - first)][..size];
      assert iterators[..size] == iterators[..size + (last - first)][..size];
    }

    /** Closes the gap, one member and its entry at a time. */
    method MoveUp(first: nat, last: nat, ghost nodes0: map<nat, Node>)
      requires size <= members.Length == iterators.Length && first < last <= size
      requires Indexed(members[..size], iterators[..size], nodes0, next) && Moving(nodes0, nodes, first, last, 0)
      modifies this`nodes, members, iterators
      ensures Shifted(members[..size], old(members[..size]), first, last, size - last)
      ensures Shifted(iterators[..size], old(iterators[..size]), first, last, size - last)
      ensures Moving(nodes0, nodes, first, last, size - last)
    {
      hide Indexed, Moving, Shifted;
      ghost var ms, ids := members[..size], iterators[..size];
      ShiftStart(ms, first, last);
      ShiftStart(ids, first, last);
      for k := 0 to size - last
        invariant Shifted(members[..size], ms, first, last, k)
        invariant Shifted(iterators[..size], ids, first, last, k)
        invariant Moving(nodes0, nodes, first, last, k)
      {
        ShiftStep(members[..size], ms, first, last, k);
        ShiftStep(iterators[..size], ids, first, last, k);
        MoveEntry(ms, ids, nodes0, nodes, next, first, last, k);
        assert members[last + k] == members[..size][last + k] && iterators[last + k] == iterators[..size][last + k];
        ghost var ms', ids' := members[..size], iterators[..size];
        members[first + k] := members[last + k];
        iterators[first + k] := iterators[last + k];
        nodes := nodes[iterators[first + k] := nodes[iterators[first + k]].(pos := first + k)];
        assert members[..size] == ms'[first + k := ms[last + k]];
        assert iterators[..size] == ids'[first + k := ids[last + k]];
      }
    }
  }

  /** The entries of positions from first to last are gone, and k entries behind them have moved up. */
  ghost predicate Moving(nodes0: map<nat, Node>, nodes: map<nat, Node>, first: nat, last: nat, k: nat)
    requires first <= last
  {
    && (forall id :: id in nodes <==> id in nodes0 && !(first <= nodes0[id].pos < last))
    && forall id | id in nodes ::
        nodes[id] == if last <= nodes0[id].pos < last + k then Node(nodes0[id].key, nodes0[id].pos - (last - first)) else nodes0[id]
  }

  lemma MoveEntry(ms: seq<Member>, ids: seq<nat>, nodes0: map<nat, Node>, nodes: map<nat, Node>, next: nat,
                  first: nat, last: nat, k: nat)
    requires Indexed(ms, ids, nodes0, next) && first <= last && last + k < |ms| && Moving(nodes0, nodes, first, last, k)
    ensures ids[last + k] in nodes
    ensures Moving(nodes0, nodes[ids[last + k] := nodes[ids[last + k]].(pos := first + k)], first, last, k + 1)
  {}

  lemma Moved(ms: seq<Member>, ids: seq<nat>, nodes0: map<nat, Node>, nodes: map<nat, Node>, next: nat, first: nat, last: nat)
    requires Indexed(ms, ids, nodes0, next) && first <= last <= |ms|
    requires Moving(nodes0, nodes, first, last, |ms| - last) || (first == last && Moving(nodes0, nodes, first, last, 0))
    ensures Indexed(RangeErased(ms, first, last), ids[..first] + ids[last..], nodes, next)
  {
    var ms', ids' := RangeErased(ms, first, last), ids[..first] + ids[last..];
    forall i | 0 <= i < |ms'|
      ensures ids'[i] in nodes && nodes[ids'[i]] == Node(ms'[i].name, i)
    {
      var was := if i < first then i else i + (last - first);
      assert ids'[i] == ids[was] && ms'[i] == ms[was];
    }
    forall id | id in nodes
      ensures id < next && nodes[id].pos < |ms'| && ids'[nodes[id].pos] == id
    {
      assert ids[nodes0[id].pos] == id;
    }
  }

  lemma {:induction false} CountEntries(ms: seq<Member>, ids: seq<nat>, nodes: map<nat, Node>, next: nat)
    requires Indexed(ms, ids, nodes, next)
    ensures |nodes| == |ms|
    decreases |ms|
  {
    if ms == [] {
      assert nodes == map[];
    } else {
      var last := |ms| - 1;
      CountEntries(ms[..last], ids[..last], nodes - {ids[last]}, next);
    }
  }

  lemma IndexedAdd(ms: seq<Member>, ids: seq<nat>, nodes: map<nat, Node>, next: nat, m: Member)
    requires Indexed(ms, ids, nodes, next)
    ensures Indexed(ms + [m], ids + [next], nodes[next := Node(m.name, |ms|)], next + 1)
  {}

  lemma IndexedRemove(ms: seq<Member>, ids: seq<nat>, nodes: map<nat, Node>, next: nat, i: nat)
    requires Indexed(ms, ids, nodes, next) && i < |ms|
    ensures var last := |ms| - 1;
            var rest := nodes - {ids[i]};
            var ids' := ids[i := ids[last]][..last];
            if i == last then Indexed(SwapRemoved(ms, i), ids', rest, next)
            else ids[last] in rest && Indexed(SwapRemoved(ms, i), ids', rest[ids[last] := rest[ids[last]].(pos := i)], next)
  {}

  // ---------- both kinds of object agree ----------

  /** A lookup in the multimap is that of the scan for every name exactly when the names are unique. */
  lemma LookupsAgree(ms: seq<Member>)
    ensures UniqueNames(ms) <==> forall name, i: nat :: Finds(ms, name, i) ==> i == Find(ms, name)
  {
    if UniqueNames(ms) {
      forall name, i: nat | Finds(ms, name, i) ensures i == Find(ms, name) {
        if i < |ms| { FindIs(ms, name, i); } else { FindIs(ms, name, |ms|); }
      }
    } else {
      var i, j :| 0 <= i < j < |ms| && ms[i].name == ms[j].name;
      assert Finds(ms, ms[j].name, j) && Finds(ms, ms[j].name, i);
    }
  }

  /** Where the members are after a removal, and after a range has been erased. */
  lemma Places(ms: seq<Member>, i: nat, first: nat, last: nat)
    requires i < |ms| && first <= last <= |ms|
    ensures var r := SwapRemoved(ms, i);
            |r| == |ms| - 1 && forall j | 0 <= j < |r| :: r[j] == if j == i then ms[|ms| - 1] else ms[j]
    ensures var r := RangeErased(ms, first, last);
            |r| == |ms| - (last - first) && forall j | 0 <= j < |r| :: r[j] == if j < first then ms[j] else ms[j + (last - first)]
  {}

  /** Taking a member out by swapping loses that member and nothing else. */
  lemma SwapKeepsTheRest(ms: seq<Member>, i: nat)
    requires i < |ms|
    ensures multiset(SwapRemoved(ms, i)) == multiset(ms) - multiset{ms[i]}
  {
    SwapShape(ms, i);
    hide SwapRemoved;
    var last := |ms| - 1;
    if i != last {
      Exchanged(ms[..i], ms[i], ms[i + 1..last], ms[last]);
    }
  }

  lemma SwapShape(ms: seq<Member>, i: nat)
    requires i < |ms|
    ensures var last := |ms| - 1;
            if i == last then SwapRemoved(ms, i) == ms[..last] && ms == ms[..last] + [ms[last]]
            else SwapRemoved(ms, i) == ms[..i] + [ms[last]] + ms[i + 1..last]
                 && ms == ms[..i] + [ms[i]] + ms[i + 1..last] + [ms[last]]
  {}

  lemma Exchanged(a: seq<Member>, x: Member, b: seq<Member>, y: Member)
    ensures multiset(a + [y] + b) == multiset(a + [x] + b + [y]) - multiset{x}
  {}

  datatype Op =
    | AddMember(m: Member)
    | RemoveMember(name: string)
    | EraseMember(name: string)
    | EraseMembers(first: nat, last: nat)
    | FindMember(name: string)

  /** The members after an operation; a name that is not found changes nothing. */
  function Apply(ms: seq<Member>, op: Op): seq<Member> {
    match op
    case AddMember(m) => ms + [m]
    case RemoveMember(name) => if Find(ms, name) < |ms| then SwapRemoved(ms, Find(ms, name)) else ms
    case EraseMember(name) => if Find(ms, name) < |ms| then RangeErased(ms, Find(ms, name), Find(ms, name) + 1) else ms
    case EraseMembers(first, last) => if first <= last <= |ms| && ms != [] then RangeErased(ms, first, last) else ms
    case FindMember(_) => ms
  }

  /** A new name is added, a range lies within the members. */
  predicate Allowed(ms: seq<Member>, op: Op) {
    match op
    case AddMember(m) => forall j | 0 <= j < |ms| :: ms[j].name != m.name
    case EraseMembers(first, last) => first <= last <= |ms| && ms != []
    case _ => true
  }

  lemma ApplyKeepsUnique(ms: seq<Member>, op: Op)
    requires UniqueNames(ms) && Allowed(ms, op)
    ensures UniqueNames(Apply(ms, op))
  {}

  function RunOps(ms: seq<Member>, ops: seq<Op>): seq<Member> {
    if ops == [] then ms else Apply(RunOps(ms, ops[..|ops| - 1]), ops[|ops| - 1])
  }

  /** Every operation is allowed in the state it meets. */
  predicate AllAllowed(ops: seq<Op>) {
    forall k | 0 <= k < |ops| :: Allowed(RunOps([], ops[..k]), ops[k])
  }

  /** The position an operation asks for, if it looks a name up. */
  function Answer(ms: seq<Member>, op: Op): nat {
    match op
    case RemoveMember(name) => Find(ms, name)
    case EraseMember(name) => Find(ms, name)
    case FindMember(name) => Find(ms, name)
    case _ => 0
  }

  method Scan(scan: ScanObject, op: Op) returns (answer: nat)
    requires scan.Valid() && Allowed(scan.Contents(), op)
    requires op.AddMember? && scan.size == scan.members.Length ==> GrownCapacity(scan.size) < SIZE_LIMIT
    modifies scan, scan.members
    ensures scan.Valid() && scan.Contents() == Apply(old(scan.Contents()), op) && answer == Answer(old(scan.Contents()), op)
    ensures scan.members == old(scan.members) || fresh(scan.members)
    ensures scan.members.Length <= Max(old(scan.members.Length), GrownCapacity(old(scan.size)))
  {
    answer := 0;
    match op
    case AddMember(m) =>
      scan.Add(m);
    case RemoveMember(name) =>
      answer := scan.Find(name);
      if answer != scan.size { scan.Remove(answer); }
    case EraseMember(name) =>
      answer := scan.Find(name);
      if answer != scan.size { scan.Erase(answer, answer + 1); }
    case EraseMembers(first, last) =>
      scan.Erase(first, last);
    case FindMember(name) =>
      answer := scan.Find(name);
  }

  method Index(index: MapObject, op: Op) returns (answer: nat)
    requires index.Valid() && Allowed(index.Contents(), op) && UniqueNames(index.Contents())
    requires op.AddMember? && index.size == index.members.Length ==> GrownCapacity(index.size) < SIZE_LIMIT
    modifies index, index.members, index.iterators
    ensures index.Valid() && index.Contents() == Apply(old(index.Contents()), op) && answer == Answer(old(index.Contents()), op)
    ensures index.members == old(index.members) || fresh(index.members)
    ensures index.iterators == old(index.iterators) || fresh(index.iterators)
    ensures index.members.Length <= Max(old(index.members.Length), GrownCapacity(old(index.size)))
  {
    hide Indexed, Finds, UniqueNames;
    LookupsAgree(index.Contents());
    answer := 0;
    match op
    case AddMember(m) =>
      index.Add(m);
    case RemoveMember(name) =>
      answer := index.Find(name);
      if answer != index.size { index.Remove(answer); }
    case EraseMember(name) =>
      answer := index.Find(name);
      if answer != index.size { index.Erase(answer, answer + 1); }
    case EraseMembers(first, last) =>
      index.Erase(first, last);
    case FindMember(name) =>
      answer := index.Find(name);
  }

  /** Both objects hold these members, and k operations have not made them larger than this. */
  ghost predicate Twins(scan: ScanObject, index: MapObject, ms: seq<Member>, k: nat)
    reads scan, scan.members, index, index.members, index.iterators
  {
    && scan.Valid() && index.Valid() && scan.members != index.members
    && scan.Contents() == index.Contents() == ms && UniqueNames(ms)
    && |ms| <= k && scan.members.Length <= 2 * k + 16 && index.members.Length <= 2 * k + 16
  }

  /** An operation on both objects. */
  method Perform(scan: ScanObject, index: MapObject, op: Op, ghost ms: seq<Member>, ghost k: nat) returns (i: nat, j: nat)
    requires Twins(scan, index, ms, k) && Allowed(ms, op) && k < 0x4000_0000
    requires |Apply(ms, op)| <= |ms| + 1 && UniqueNames(Apply(ms, op))
    modifies scan, scan.members, index, index.members, index.iterators
    ensures Twins(scan, index, Apply(ms, op), k + 1) && i == j == Answer(ms, op)
    ensures scan.members == old(scan.members) || fresh(scan.members)
    ensures index.members == old(index.members) || fresh(index.members)
    ensures index.iterators == old(index.iterators) || fresh(index.iterators)
  {
    hide Indexed, UniqueNames, Apply, Answer, GrownCapacity, Allowed;
    SmallCapacity(|ms|, k);
    i := Scan(scan, op);
    j := Index(index, op);
  }

  /** Whatever operations are performed, the two objects answer alike and end with the same members
      in the same order. */
  method Drive(ops: seq<Op>) returns (scan: ScanObject, index: MapObject, scanned: seq<nat>, indexed: seq<nat>)
    requires AllAllowed(ops) && |ops| < 0x4000_0000
    ensures scan.Valid() && index.Valid()
    ensures scan.Contents() == index.Contents() == RunOps([], ops)
    ensures |scanned| == |ops| && scanned == indexed
    ensures forall k | 0 <= k < |ops| :: scanned[k] == Answer(RunOps([], ops[..k]), ops[k])
  {
    scan := new ScanObject();
    index := new MapObject();
    scanned, indexed := [], [];
    hide UniqueNames, Apply, Answer, Allowed, Indexed;
    NoNames();
    for k := 0 to |ops|
      invariant fresh(scan) && fresh(scan.members) && fresh(index) && fresh(index.members) && fresh(index.iterators)
      invariant Twins(scan, index, RunOps([], ops[..k]), k)
      invariant |scanned| == k && scanned == indexed
      invariant forall j | 0 <= j < k :: scanned[j] == Answer(RunOps([], ops[..j]), ops[j])
    {
      Next(ops, k);
      var i, j := Perform(scan, index, ops[k], RunOps([], ops[..k]), k);
      scanned, indexed := scanned + [i], indexed + [j];
    }
    assert ops[..|ops|] == ops;
  }

  lemma Next(ops: seq<Op>, k: nat)
    requires k < |ops| && AllAllowed(ops) && UniqueNames(RunOps([], ops[..k]))
    ensures var ms := RunOps([], ops[..k]);
            && RunOps([], ops[..k + 1]) == Apply(ms, ops[k]) && Allowed(ms, ops[k])
            && |Apply(ms, ops[k])| <= |ms| + 1 && UniqueNames(Apply(ms, ops[k]))
  {
    hide UniqueNames;
    var ms := RunOps([], ops[..k]);
    assert ops[..k + 1][..k] == ops[..k] && ops[..k + 1][k] == ops[k];
    ApplyKeepsUnique(ms, ops[k]);
  }

  lemma SmallCapacity(size: nat, k: nat)
    requires size <= k < 0x4000_0000
    ensures GrownCapacity(size) <= 2 * k + 18 && GrownCapacity(size) < SIZE_LIMIT
  {}

  lemma NoNames()
    ensures UniqueNames([])
  {}
}
