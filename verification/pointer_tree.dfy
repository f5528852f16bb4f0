/** Looking up, creating and erasing the value a pointer names in a JSON tree. */
module PointerTree {
  import opened JsonText
  import opened JsonValue
  import opened JsonPointer

  // ---------- locations in a tree ----------

  /** The way down to a value: the position of a child at each step. */
  type Location = seq<nat>

  function Kids(v: Value): nat {
    match v
    case VArray(vs) => |vs|
    case VObject(ms) => |ms|
    case _ => 0
  }

  /** A child and, in an object, its name. */
  function Kid(v: Value, i: nat): Member
    requires i < Kids(v)
  {
    match v
    case VArray(vs) => Member("", vs[i])
    case VObject(ms) => ms[i]
  }

  function PutKid(v: Value, i: nat, x: Value): (w: Value)
    requires i < Kids(v)
    ensures Kids(w) == Kids(v) && Kid(w, i) == Member(Kid(v, i).name, x)
    ensures forall j | 0 <= j < Kids(v) && j != i :: Kid(w, j) == Kid(v, j)
  {
    match v
    case VArray(vs) => VArray(vs[i := x])
    case VObject(ms) => VObject(ms[i := Member(ms[i].name, x)])
  }

  predicate IsIn(v: Value, q: Location)
    decreases |q|
  {
    q == [] || (q[0] < Kids(v) && IsIn(Kid(v, q[0]).value, q[1..]))
  }

  /** The value at a location, with its name. */
  function At(m: Member, q: Location): Member
    requires IsIn(m.value, q)
    decreases |q|
  {
    if q == [] then m else At(Kid(m.value, q[0]), q[1..])
  }

  function Put(v: Value, q: Location, x: Value): Value
    requires IsIn(v, q)
    decreases |q|
  {
    if q == [] then x else PutKid(v, q[0], Put(Kid(v, q[0]).value, q[1..], x))
  }

  function Root(v: Value): Member {
    Member("", v)
  }

  // ---------- lookup ----------

  datatype Step = Step(position: nat) | NoStep

  /** The child a token names. */
  function StepTo(v: Value, t: Token): (r: Step)
    ensures r.Step? ==> r.position < Kids(v)
  {
    match v
    case VObject(ms) => if Find(ms, t.name) == |ms| then NoStep else Step(Find(ms, t.name))
    case VArray(vs) => if t.index == INVALID_INDEX || t.index >= |vs| then NoStep else Step(t.index)
    case _ => NoStep
  }

  datatype Resolution = Resolved(location: Location) | Unresolved(token: nat)

  function Resolve(v: Value, tokens: seq<Token>): (r: Resolution)
    ensures r.Resolved? ==> IsIn(v, r.location) && |r.location| == |tokens|
    ensures r.Unresolved? ==> r.token < |tokens|
    decreases |tokens|
  {
    if tokens == [] then Resolved([])
    else
      match StepTo(v, tokens[0])
      case NoStep => Unresolved(0)
      case Step(i) =>
        match Resolve(Kid(v, i).value, tokens[1..])
        case Resolved(q) => Resolved([i] + q)
        case Unresolved(k) => Unresolved(k + 1)
  }

  // ---------- creation ----------

  function Nulls(n: nat): (vs: seq<Value>)
    ensures |vs| == n && forall i | 0 <= i < n :: vs[i] == VNull
  {
    seq(n, _ => VNull)
  }

  predicate IsAppend(t: Token) {
    t.name == "-"
  }

  /** The value made able to hold the child: an object for a name, an array for an index if it is
      neither already. */
  function Retyped(v: Value, t: Token): Value {
    if t.index == INVALID_INDEX then (if v.VObject? then v else VObject([]))
    else if v.VArray? || v.VObject? then v else VArray([])
  }

  /** A value with the child a token names, the child's position, and whether it was there. */
  datatype Grown = Grown(value: Value, position: nat, existed: bool)

  function Grow(v: Value, t: Token): (g: Grown)
    ensures g.position < Kids(g.value)
  {
    if v.VArray? && IsAppend(t) then Grown(VArray(v.elements + [VNull]), |v.elements|, false)
    else
      match Retyped(v, t)
      case VArray(vs) =>
        if t.index < |vs| then Grown(VArray(vs), t.index, true)
        else Grown(VArray(vs + Nulls(t.index + 1 - |vs|)), t.index, false)
      case VObject(ms) =>
        if Find(ms, t.name) < |ms| then Grown(VObject(ms), Find(ms, t.name), true)
        else Grown(VObject(ms + [Member(t.name, VNull)]), |ms|, false)
  }

  datatype Created = Created(root: Value, slot: Location, existed: bool)

  function Create(v: Value, tokens: seq<Token>): (r: Created)
    ensures IsIn(r.root, r.slot) && |r.slot| == |tokens|
    decreases |tokens|
  {
    if tokens == [] then Created(v, [], true)
    else
      var g := Grow(v, tokens[0]);
      var below := Create(Kid(g.value, g.position).value, tokens[1..]);
      Created(PutKid(g.value, g.position, below.root), [g.position] + below.slot, g.existed && below.existed)
  }

  // ---------- erasure ----------

  function DropKid(v: Value, i: nat): (w: Value)
    requires i < Kids(v)
    ensures Kids(w) == Kids(v) - 1
    ensures forall j | 0 <= j < Kids(w) :: Kid(w, j) == Kid(v, if j < i then j else j + 1)
  {
    match v
    case VArray(vs) => VArray(vs[..i] + vs[i + 1..])
    case VObject(ms) => VObject(ms[..i] + ms[i + 1..])
  }

  /** The tree without the value at a location below the root. */
  function Drop(v: Value, q: Location): Value
    requires q != [] && IsIn(v, q)
    decreases |q|
  {
    if |q| == 1 then DropKid(v, q[0]) else PutKid(v, q[0], Drop(Kid(v, q[0]).value, q[1..]))
  }

  datatype Erased = Erased(root: Value, done: bool)

  /** The root itself cannot be erased. */
  function Erase(v: Value, tokens: seq<Token>): Erased {
    if tokens == [] then Erased(v, false)
    else
      match Resolve(v, tokens)
      case Unresolved(_) => Erased(v, false)
      case Resolved(q) => Erased(Drop(v, q), true)
  }

  // ---------- locations and replacement ----------

  lemma {:induction false} AtStep(m: Member, q: Location, i: nat)
    requires IsIn(m.value, q) && i < Kids(At(m, q).value)
    ensures IsIn(m.value, q + [i]) && At(m, q + [i]) == Kid(At(m, q).value, i)
    decreases |q|
  {
    if q == [] {
      assert q + [i] == [i];
    } else {
      assert (q + [i])[1..] == q[1..] + [i];
      AtStep(Kid(m.value, q[0]), q[1..], i);
    }
  }

  lemma {:induction false} PutAt(v: Value, q: Location, x: Value)
    requires IsIn(v, q)
    ensures IsIn(Put(v, q, x), q) && At(Root(Put(v, q, x)), q).value == x
    ensures Put(v, q, At(Root(v), q).value) == v
    decreases |q|
  {
    if q != [] {
      PutAtNamed(v, q, x);
      PutAt(Kid(v, q[0]).value, q[1..], x);
      AtValue(Kid(v, q[0]), Root(Kid(v, q[0]).value), q[1..]);
    }
  }

  /** The value below does not depend on the name of the top. */
  lemma {:induction false} AtValue(m: Member, m': Member, q: Location)
    requires IsIn(m.value, q) && m.value == m'.value
    ensures At(m, q).value == At(m', q).value
  {}

  lemma PutAtNamed(v: Value, q: Location, x: Value)
    requires q != [] && IsIn(v, q)
    ensures Kid(Put(v, q, x), q[0]) == Member(Kid(v, q[0]).name, Put(Kid(v, q[0]).value, q[1..], x))
  {}

  lemma {:induction false} PutBelow(v: Value, q: Location, x: Value, i: nat, y: Value)
    requires IsIn(v, q) && i < Kids(x)
    ensures IsIn(Put(v, q, x), q + [i]) && Put(Put(v, q, x), q + [i], y) == Put(v, q, PutKid(x, i, y))
    decreases |q|
  {
    if q == [] {
      assert q + [i] == [i];
    } else {
      assert (q + [i])[1..] == q[1..] + [i];
      PutBelow(Kid(v, q[0]).value, q[1..], x, i, y);
    }
  }

  lemma {:induction false} DropAt(v: Value, q: Location, i: nat)
    requires IsIn(v, q) && i < Kids(At(Root(v), q).value)
    ensures IsIn(v, q + [i]) && Drop(v, q + [i]) == Put(v, q, DropKid(At(Root(v), q).value, i))
    decreases |q|
  {
    AtStep(Root(v), q, i);
    if q == [] {
      assert q + [i] == [i];
    } else {
      assert (q + [i])[1..] == q[1..] + [i];
      AtValue(Kid(v, q[0]), Root(Kid(v, q[0]).value), q[1..]);
      DropAt(Kid(v, q[0]).value, q[1..], i);
    }
  }

  lemma {:induction false} ResolveAppend(v: Value, tokens: seq<Token>, t: Token)
    ensures match Resolve(v, tokens)
            case Unresolved(k) => Resolve(v, tokens + [t]) == Unresolved(k)
            case Resolved(q) =>
              match StepTo(At(Root(v), q).value, t)
              case NoStep => Resolve(v, tokens + [t]) == Unresolved(|tokens|)
              case Step(i) => Resolve(v, tokens + [t]) == Resolved(q + [i])
    decreases |tokens|
  {
    if tokens == [] {
      assert tokens + [t] == [t] && [t][1..] == [];
    } else {
      ResolveFirst(v, tokens);
      ResolveFirst(v, tokens + [t]);
      assert (tokens + [t])[1..] == tokens[1..] + [t];
      hide StepTo, Resolve;
      if StepTo(v, tokens[0]).Step? {
        var i := StepTo(v, tokens[0]).position;
        var kid := Kid(v, i).value;
        ResolveAppend(kid, tokens[1..], t);
        var r := Resolve(kid, tokens[1..]);
        if r.Resolved? {
          assert ([i] + r.location)[1..] == r.location;
          AtValue(Kid(v, i), Root(kid), r.location);
          var last := StepTo(At(Root(kid), r.location).value, t);
          if last.Step? { assert [i] + (r.location + [last.position]) == [i] + r.location + [last.position]; }
        }
      }
    }
  }

  lemma ResolveFirst(v: Value, tokens: seq<Token>)
    requires tokens != []
    ensures Resolve(v, tokens) ==
            match StepTo(v, tokens[0])
            case NoStep => Unresolved(0)
            case Step(i) =>
              (match Resolve(Kid(v, i).value, tokens[1..])
               case Resolved(q) => Resolved([i] + q)
               case Unresolved(k) => Unresolved(k + 1))
  {
    hide StepTo;
  }
}
