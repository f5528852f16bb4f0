/** The loops that walk a tree along a pointer and change it in place. */
module PointerDom {
  import opened JsonText
  import opened JsonValue
  import opened JsonPointer
  import opened PointerTree

  method FindMember(ms: seq<Member>, name: string) returns (i: nat)
    ensures i == Find(ms, name)
  {
    i := 0;
    while i < |ms| && ms[i].name != name
      invariant i <= |ms| && Find(ms, name) == i + Find(ms[i..], name)
    {
      assert ms[i..][0] == ms[i] && ms[i..][1..] == ms[i + 1..];
      i := i + 1;
    }
  }

  // ---------- what is left to do in the middle of a walk ----------

  function Below(location: Location, k: nat, r: Resolution): Resolution {
    match r
    case Resolved(q) => Resolved(location + q)
    case Unresolved(j) => Unresolved(k + j)
  }

  lemma OneToken(v: Value, tokens: seq<Token>, k: nat, location: Location)
    requires k < |tokens|
    ensures Below(location, k, Resolve(v, tokens[k..])) ==
            match StepTo(v, tokens[k])
            case NoStep => Unresolved(k)
            case Step(i) => Below(location + [i], k + 1, Resolve(Kid(v, i).value, tokens[k + 1..]))
  {
    hide StepTo;
    assert tokens[k..][0] == tokens[k] && tokens[k..][1..] == tokens[k + 1..];
    var r := StepTo(v, tokens[k]);
    if r.Step? {
      var below := Resolve(Kid(v, r.position).value, tokens[k + 1..]);
      if below.Resolved? {
        assert location + [r.position] + below.location == location + ([r.position] + below.location);
      }
    }
  }

  function CreatedBelow(root: Value, slot: Location, existed: bool, tokens: seq<Token>): Created
    requires IsIn(root, slot)
  {
    var below := PointerTree.Create(At(Root(root), slot).value, tokens);
    Created(Put(root, slot, below.root), slot + below.slot, existed && below.existed)
  }

  lemma CreateStep(root: Value, slot: Location, existed: bool, tokens: seq<Token>, k: nat)
    requires IsIn(root, slot) && k < |tokens|
    ensures var g := Grow(At(Root(root), slot).value, tokens[k]);
            && IsIn(Put(root, slot, g.value), slot + [g.position])
            && CreatedBelow(root, slot, existed, tokens[k..]) ==
               CreatedBelow(Put(root, slot, g.value), slot + [g.position], existed && g.existed, tokens[k + 1..])
  {
    var v := At(Root(root), slot).value;
    var g := Grow(v, tokens[k]);
    CreateUnfolded(v, tokens, k);
    PutGrown(root, slot, g.value, g.position, existed && g.existed, tokens[k + 1..]);
  }

  /** Going on below a child that has just been put in place. */
  lemma PutGrown(root: Value, slot: Location, x: Value, i: nat, existed: bool, tokens: seq<Token>)
    requires IsIn(root, slot) && i < Kids(x)
    ensures IsIn(Put(root, slot, x), slot + [i])
    ensures var below := PointerTree.Create(Kid(x, i).value, tokens);
            CreatedBelow(Put(root, slot, x), slot + [i], existed, tokens) ==
            Created(Put(root, slot, PutKid(x, i, below.root)), slot + ([i] + below.slot), existed && below.existed)
  {
    hide Put, PutKid, At, Kid, Kids, PointerTree.Create;
    var below := PointerTree.Create(Kid(x, i).value, tokens);
    PutAt(root, slot, x);
    AtStep(Root(Put(root, slot, x)), slot, i);
    PutBelow(root, slot, x, i, below.root);
    Associative(slot, i, below.slot);
  }

  lemma Associative(a: Location, i: nat, b: Location)
    ensures a + [i] + b == a + ([i] + b)
  {}

  lemma CreateUnfolded(v: Value, tokens: seq<Token>, k: nat)
    requires k < |tokens|
    ensures var g := Grow(v, tokens[k]); var below := PointerTree.Create(Kid(g.value, g.position).value, tokens[k + 1..]);
            PointerTree.Create(v, tokens[k..]) ==
            Created(PutKid(g.value, g.position, below.root), [g.position] + below.slot, g.existed && below.existed)
  {
    hide Grow;
    assert tokens[k..][0] == tokens[k] && tokens[k..][1..] == tokens[k + 1..];
  }

  lemma CreateEnd(root: Value, slot: Location, existed: bool)
    requires IsIn(root, slot)
    ensures CreatedBelow(root, slot, existed, []) == Created(root, slot, existed)
  {
    PutAt(root, slot, VNull);
    assert slot + [] == slot;
  }

  lemma CreateFromRoot(root: Value, tokens: seq<Token>)
    ensures CreatedBelow(root, [], true, tokens) == PointerTree.Create(root, tokens)
  {
    assert [] + PointerTree.Create(root, tokens).slot == PointerTree.Create(root, tokens).slot;
  }

  class Tree {
    var root: Value

    constructor (root: Value)
      ensures this.root == root
    {
      this.root := root;
    }

    method StepInto(v: Value, t: Token) returns (r: Step)
      ensures r == StepTo(v, t)
    {
      r := NoStep;
      if v.VObject? {
        var m := FindMember(v.members, t.name);
        if m != |v.members| { r := Step(m); }
      } else if v.VArray? {
        if !(t.index == INVALID_INDEX || t.index >= |v.elements|) { r := Step(t.index); }
      }
    }

    /** One step down; the tokens from k on are still to be resolved. */
    method Get(tokens: seq<Token>) returns (found: bool, location: Location, unresolved: nat)
      ensures match Resolve(root, tokens)
              case Resolved(q) => found && location == q
              case Unresolved(k) => !found && unresolved == k
    {
      hide StepTo;
      var v := root;
      location, unresolved := [], 0;
      assert tokens[0..] == tokens;
      for k := 0 to |tokens|
        invariant IsIn(root, location) && At(Root(root), location).value == v
        invariant Resolve(root, tokens) == Below(location, k, Resolve(v, tokens[k..]))
      {
        var t := tokens[k];
        var r := StepInto(v, t);
        OneToken(v, tokens, k, location);
        if r.NoStep? {
          return false, location, k;
        }
        AtStep(Root(root), location, r.position);
        v := Kid(v, r.position).value;
        location := location + [r.position];
      }
      assert location + [] == location;
      found := true;
    }

    method Create(tokens: seq<Token>) returns (slot: Location, existed: bool)
      modifies this
      ensures PointerTree.Create(old(root), tokens) == Created(root, slot, existed)
    {
      hide PointerTree.Create, Grow;
      slot, existed := [], true;
      ghost var v0 := root;
      CreateFromRoot(root, tokens);
      assert tokens[0..] == tokens;
      for k := 0 to |tokens|
        invariant IsIn(root, slot)
        invariant CreatedBelow(root, slot, existed, tokens[k..]) == PointerTree.Create(v0, tokens)
      {
        var t := tokens[k];
        var v := At(Root(root), slot).value;
        CreateStep(root, slot, existed, tokens, k);
        var v', position, there := GrowInPlace(v, t);
        root := Put(root, slot, v');
        slot := slot + [position];
        existed := existed && there;
      }
      CreateEnd(root, slot, existed);
    }

    /** The child a token names, made if it is missing. */
    method GrowInPlace(v: Value, t: Token) returns (v': Value, position: nat, there: bool)
      ensures Grow(v, t) == Grown(v', position, there)
    {
      v', there := v, true;
      if v'.VArray? && t.name != "" && t.name[0] == '-' && |t.name| == 1 {
        v' := VArray(v'.elements + [VNull]);
        position := |v'.elements| - 1;
        there := false;
        assert t.name == "-";
      } else {
        if t.index == INVALID_INDEX {
          if !v'.VObject? { v' := VObject([]); }
        } else if !v'.VArray? && !v'.VObject? {
          v' := VArray([]);
        }
        if v'.VArray? {
          if t.index >= |v'.elements| {
            var vs := PadTo(v'.elements, t.index);
            v' := VArray(vs);
            there := false;
          }
          position := t.index;
        } else {
          position := FindMember(v'.members, t.name);
          if position == |v'.members| {
            v' := VObject(v'.members + [Member(t.name, VNull)]);
            there := false;
          }
        }
      }
    }

    method PadTo(vs: seq<Value>, index: nat) returns (vs': seq<Value>)
      requires |vs| <= index
      ensures vs' == vs + Nulls(index + 1 - |vs|)
    {
      vs' := vs;
      while index >= |vs'|
        invariant |vs| <= |vs'| <= index + 1 && vs' == vs + Nulls(|vs'| - |vs|)
      {
        vs' := vs' + [VNull];
      }
    }

    method Erase(tokens: seq<Token>) returns (done: bool)
      modifies this
      ensures PointerTree.Erase(old(root), tokens) == Erased(root, done)
    {
      hide StepTo, Drop, Put, DropKid;
      if tokens == [] { return false; }
      var last := |tokens| - 1;
      var found, q, _ := Get(tokens[..last]);
      assert tokens == tokens[..last] + [tokens[last]];
      ResolveAppend(root, tokens[..last], tokens[last]);
      if !found {
        return false;
      }
      var v := At(Root(root), q).value;
      var r := StepInto(v, tokens[last]);
      if r.NoStep? { return false; }
      DropAt(root, q, r.position);
      root := Put(root, q, DropKid(v, r.position));
      done := true;
    }
  }
}
