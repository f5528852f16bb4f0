/** What creation and erasure by pointer do to lookup, and what they leave alone. */
module PointerTreeLaws {
  import opened JsonText
  import opened JsonValue
  import opened JsonPointer
  import opened PointerTree
  import PointerLaws

  /** No "-" token carries an index. */
  predicate DashesAppend(tokens: seq<Token>) {
    forall i | 0 <= i < |tokens| && IsAppend(tokens[i]) :: tokens[i].index == INVALID_INDEX
  }

  lemma GrowExisted(v: Value, t: Token)
    requires IsAppend(t) ==> t.index == INVALID_INDEX
    ensures var g := Grow(v, t);
            && (g.existed <==> StepTo(v, t).Step?)
            && (g.existed ==> g.value == v && StepTo(v, t) == Step(g.position))
            && (!g.existed ==> Kid(g.value, g.position).value == VNull)
  {}

  /** Creation reports that the value exists exactly when lookup finds it, and then changes nothing. */
  lemma {:induction false} CreateExisted(v: Value, tokens: seq<Token>)
    requires DashesAppend(tokens)
    ensures Create(v, tokens).existed <==> Resolve(v, tokens).Resolved?
    ensures Create(v, tokens).existed ==> Create(v, tokens).root == v && Resolve(v, tokens) == Resolved(Create(v, tokens).slot)
    decreases |tokens|
  {
    hide Grow, StepTo;
    if tokens != [] {
      var g := Grow(v, tokens[0]);
      GrowExisted(v, tokens[0]);
      CreateExisted(Kid(g.value, g.position).value, tokens[1..]);
      PutKidSame(g.value, g.position);
    }
  }

  lemma PutKidSame(v: Value, i: nat)
    requires i < Kids(v)
    ensures PutKid(v, i, Kid(v, i).value) == v
  {}

  /** A value that did not exist is created as null. */
  lemma {:induction false} CreatedIsNull(v: Value, tokens: seq<Token>)
    requires DashesAppend(tokens) && (v == VNull || !Create(v, tokens).existed)
    ensures At(Root(Create(v, tokens).root), Create(v, tokens).slot).value == VNull
    decreases |tokens|
  {
    hide Grow;
    if tokens != [] {
      var g := Grow(v, tokens[0]);
      GrowExisted(v, tokens[0]);
      var kid := Kid(g.value, g.position).value;
      CreatedIsNull(kid, tokens[1..]);
      var below := Create(kid, tokens[1..]);
      AtValue(Kid(Create(v, tokens).root, g.position), Root(below.root), below.slot);
    }
  }

  /** The walk meets an array at a "-" token, and appends to it. */
  predicate Appends(v: Value, tokens: seq<Token>)
    decreases |tokens|
  {
    && tokens != []
    && (|| (v.VArray? && IsAppend(tokens[0]))
        || (var g := Grow(v, tokens[0]); Appends(Kid(g.value, g.position).value, tokens[1..])))
  }

  lemma GrownStep(v: Value, t: Token, x: Value)
    requires IsAppend(t) ==> t.index == INVALID_INDEX
    ensures var g := Grow(v, t);
            StepTo(PutKid(g.value, g.position, x), t) == if v.VArray? && IsAppend(t) then NoStep else Step(g.position)
  {
    var g := Grow(v, t);
    if g.value.VObject? {
      FindSame(g.value.members, PutKid(g.value, g.position, x).members, t.name, g.position);
    }
  }

  lemma FindSame(ms: seq<Member>, ms': seq<Member>, name: string, i: nat)
    requires |ms| == |ms'| && i < |ms| && ms'[i].name == name
    requires forall j | 0 <= j < i :: ms'[j].name == ms[j].name != name
    ensures Find(ms', name) == i
  {}

  /** Lookup after creation finds the slot that was returned, exactly when nothing was appended at a
      "-" token. */
  lemma {:induction false} GetAfterCreate(v: Value, tokens: seq<Token>)
    requires DashesAppend(tokens)
    ensures Resolve(Create(v, tokens).root, tokens) == Resolved(Create(v, tokens).slot) <==> !Appends(v, tokens)
    ensures Appends(v, tokens) ==> Resolve(Create(v, tokens).root, tokens).Unresolved?
    decreases |tokens|
  {
    hide Grow, StepTo;
    if tokens != [] {
      var g := Grow(v, tokens[0]);
      var below := Create(Kid(g.value, g.position).value, tokens[1..]);
      GrownStep(v, tokens[0], below.root);
      GetAfterCreate(Kid(g.value, g.position).value, tokens[1..]);
      var r := Resolve(below.root, tokens[1..]);
      if r.Resolved? && [g.position] + r.location == [g.position] + below.slot {
        assert r.location == ([g.position] + r.location)[1..] == below.slot;
      }
    }
  }

  /** Every parsed pointer is of this kind. */
  lemma ParsedAppend(s: string)
    requires Parse(s).Tokens?
    ensures DashesAppend(Parse(s).tokens)
  {
    hide TokensFrom;
    if IsUriFragment(s) { PointerLaws.DashesParsed(s, 1, true, []); } else { PointerLaws.DashesParsed(s, 0, false, []); }
  }

  /** After a pointer without "-" tokens has been created, it leads to the slot that was returned. */
  lemma CreatedIsFound(v: Value, s: string)
    requires Parse(s).Tokens? && forall t | t in Parse(s).tokens :: t.name != "-"
    ensures var tokens := Parse(s).tokens; Resolve(Create(v, tokens).root, tokens) == Resolved(Create(v, tokens).slot)
  {
    hide Parse;
    ParsedAppend(s);
    GetAfterCreate(v, Parse(s).tokens);
    NoAppends(v, Parse(s).tokens);
  }

  lemma {:induction false} NoAppends(v: Value, tokens: seq<Token>)
    requires forall t | t in tokens :: t.name != "-"
    ensures !Appends(v, tokens)
    decreases |tokens|
  {
    hide Grow;
    if tokens != [] {
      var g := Grow(v, tokens[0]);
      NoAppends(Kid(g.value, g.position).value, tokens[1..]);
    }
  }

  /** An array addressed by a name. */
  predicate Mistyped(v: Value, t: Token) {
    v.VArray? && t.index == INVALID_INDEX && !IsAppend(t)
  }

  /** On the common way of the pointer and q, some array is addressed by a name. */
  predicate Replaced(v: Value, tokens: seq<Token>, q: Location)
    requires IsIn(v, q)
    decreases |q|
  {
    && tokens != [] && q != []
    && (|| Mistyped(v, tokens[0])
        || (Grow(v, tokens[0]).position == q[0] && Replaced(Kid(v, q[0]).value, tokens[1..], q[1..])))
  }

  lemma GrowKeeps(v: Value, t: Token)
    requires !Mistyped(v, t)
    ensures var g := Grow(v, t); Kids(v) <= Kids(g.value) && forall j | 0 <= j < Kids(v) :: Kid(g.value, j) == Kid(v, j)
  {}

  /** Every value off the path keeps its place, its name and its content, unless the way to it passes
      an array addressed by a name. */
  lemma {:induction false} CreateKeeps(m: Member, tokens: seq<Token>, q: Location)
    requires IsIn(m.value, q) && !(q <= Create(m.value, tokens).slot) && !Replaced(m.value, tokens, q)
    ensures IsIn(Create(m.value, tokens).root, q)
    ensures At(Member(m.name, Create(m.value, tokens).root), q) == At(m, q)
    decreases |q|
  {
    hide Grow, Mistyped;
    var v := m.value;
    if tokens != [] {
      var g := Grow(v, tokens[0]);
      GrowKeeps(v, tokens[0]);
      if q[0] == g.position {
        var below := Create(Kid(v, q[0]).value, tokens[1..]);
        assert q == [q[0]] + q[1..];
        CreateKeeps(Kid(v, q[0]), tokens[1..], q[1..]);
      }
    }
  }

  /** An array addressed by a name becomes an object with that one member. */
  lemma MistypedReplaced(v: Value, tokens: seq<Token>)
    requires tokens != [] && Mistyped(v, tokens[0])
    ensures Kids(Create(v, tokens).root) == 1 && Create(v, tokens).root.VObject?
    ensures Kid(Create(v, tokens).root, 0).name == tokens[0].name
  {}

  // ---------- erasure ----------

  /** The last token adds one child to a value that is already there. */
  predicate AddsOne(v: Value, t: Token) {
    match v
    case VObject(ms) => Find(ms, t.name) == |ms|
    case VArray(vs) => !IsAppend(t) && t.index == |vs| && t.index != INVALID_INDEX
    case _ => false
  }

  lemma AddOneDropOne(v: Value, t: Token)
    requires AddsOne(v, t)
    ensures var r := Create(v, [t]); Erase(r.root, [t]) == Erased(v, true)
  {
    var g := Grow(v, t);
    assert [t][1..] == [];
    assert Create(v, [t]).root == g.value;
    if v.VObject? { FindSame(g.value.members, g.value.members, t.name, |v.members|); }
    assert Resolve(g.value, [t]) == Resolved([g.position]);
    assert Drop(g.value, [g.position]) == DropKid(g.value, g.position) == v;
  }

  /** Erasing what creation has added to an existing object or at the end of an existing array gives
      back the tree. */
  lemma {:induction false} EraseAfterCreate(v: Value, tokens: seq<Token>, t: Token)
    requires DashesAppend(tokens) && Resolve(v, tokens).Resolved?
    requires AddsOne(At(Root(v), Resolve(v, tokens).location).value, t)
    ensures Erase(Create(v, tokens + [t]).root, tokens + [t]) == Erased(v, true)
    decreases |tokens|
  {
    hide Grow, StepTo, AddsOne;
    if tokens == [] {
      assert tokens + [t] == [t];
      AddOneDropOne(v, t);
    } else {
      assert (tokens + [t])[1..] == tokens[1..] + [t];
      var g := Grow(v, tokens[0]);
      GrowExisted(v, tokens[0]);
      var i := g.position;
      var kid := Kid(v, i).value;
      var q := Resolve(kid, tokens[1..]).location;
      assert ([i] + q)[1..] == q;
      AtValue(Kid(v, i), Root(kid), q);
      EraseAfterCreate(kid, tokens[1..], t);
      var below := Create(kid, tokens[1..] + [t]).root;
      StepExists(v, tokens[0], below);
      EraseBelow(v, tokens[0], tokens[1..] + [t], i, below);
      PutKidSame(v, i);
    }
  }

  lemma StepExists(v: Value, t: Token, x: Value)
    requires StepTo(v, t).Step?
    ensures StepTo(PutKid(v, StepTo(v, t).position, x), t) == StepTo(v, t)
  {
    var i := StepTo(v, t).position;
    if v.VObject? { FindSame(v.members, PutKid(v, i, x).members, t.name, i); }
  }

  lemma EraseBelow(v: Value, t: Token, tokens: seq<Token>, i: nat, x: Value)
    requires i < Kids(v) && tokens != [] && StepTo(PutKid(v, i, x), t) == Step(i)
    requires Erase(x, tokens).done
    ensures Erase(PutKid(v, i, x), [t] + tokens) == Erased(PutKid(v, i, Erase(x, tokens).root), true)
  {
    hide StepTo;
    var w := PutKid(v, i, x);
    var q := Resolve(x, tokens).location;
    assert ([t] + tokens)[1..] == tokens;
    assert Resolve(w, [t] + tokens) == Resolved([i] + q);
    assert ([i] + q)[1..] == q;
    PutKidTwice(v, i, x, Drop(x, q));
  }

  lemma PutKidTwice(v: Value, i: nat, x: Value, y: Value)
    requires i < Kids(v)
    ensures PutKid(PutKid(v, i, x), i, y) == PutKid(v, i, y)
  {}

  /** Where a value is after the one at slot has been erased: behind it, in the same parent, one
      position earlier. */
  function After(slot: Location, p: Location): Location
    requires slot != []
    decreases |slot|
  {
    if p == [] then p
    else if |slot| == 1 then (if p[0] > slot[0] then [p[0] - 1] + p[1..] else p)
    else if p[0] == slot[0] then [p[0]] + After(slot[1..], p[1..])
    else p
  }

  /** Erasing succeeds exactly for a value below the root that lookup finds, and otherwise changes nothing. */
  lemma EraseSucceeds(v: Value, tokens: seq<Token>)
    ensures Erase(v, tokens).done <==> tokens != [] && Resolve(v, tokens).Resolved?
    ensures !Erase(v, tokens).done ==> Erase(v, tokens).root == v
    ensures Erase(v, tokens).done ==>
              var q := Resolve(v, tokens).location;
              var above, i := q[..|q| - 1], q[|q| - 1];
              IsIn(v, above) && i < Kids(At(Root(v), above).value)
              && Erase(v, tokens).root == Put(v, above, DropKid(At(Root(v), above).value, i))
  {
    if tokens != [] && Resolve(v, tokens).Resolved? {
      var q := Resolve(v, tokens).location;
      LastStep(v, q);
      DropAt(v, q[..|q| - 1], q[|q| - 1]);
      assert q == q[..|q| - 1] + [q[|q| - 1]];
    }
  }

  lemma {:induction false} LastStep(v: Value, q: Location)
    requires q != [] && IsIn(v, q)
    ensures IsIn(v, q[..|q| - 1]) && q[|q| - 1] < Kids(At(Root(v), q[..|q| - 1]).value)
    decreases |q|
  {
    if 1 < |q| {
      LastStep(Kid(v, q[0]).value, q[1..]);
      assert q[..|q| - 1][1..] == q[1..][..|q| - 2] && q[1..][|q| - 2] == q[|q| - 1];
      AtValue(Kid(v, q[0]), Root(Kid(v, q[0]).value), q[1..][..|q| - 2]);
    }
  }

  /** Erasing keeps every other value off the path. */
  lemma {:induction false} EraseKeeps(m: Member, slot: Location, p: Location)
    requires slot != [] && IsIn(m.value, slot) && IsIn(m.value, p) && !(p <= slot) && !(slot <= p)
    ensures IsIn(Drop(m.value, slot), After(slot, p))
    ensures At(Member(m.name, Drop(m.value, slot)), After(slot, p)) == At(m, p)
    decreases |slot|
  {
    if |slot| == 1 {
      assert slot == [slot[0]] && p[..1] == [p[0]];
    } else if p[0] == slot[0] {
      assert p == [p[0]] + p[1..] && slot == [slot[0]] + slot[1..];
      EraseKeeps(Kid(m.value, p[0]), slot[1..], p[1..]);
    }
  }

  /** After erasing a member of an object with unique names, the pointer finds nothing. */
  lemma {:induction false} GetAfterErase(v: Value, tokens: seq<Token>, t: Token)
    requires Resolve(v, tokens + [t]).Resolved? && Resolve(v, tokens).Resolved?
    requires var parent := At(Root(v), Resolve(v, tokens).location).value; parent.VObject? && UniqueNames(parent.members)
    ensures Resolve(Erase(v, tokens + [t]).root, tokens + [t]) == Unresolved(|tokens|)
    decreases |tokens|
  {
    hide StepTo, UniqueNames;
    if tokens == [] {
      assert tokens + [t] == [t] && [t][1..] == [];
      DropUnique(v, t);
    } else {
      assert (tokens + [t])[1..] == tokens[1..] + [t];
      var i := StepTo(v, tokens[0]).position;
      var kid := Kid(v, i).value;
      var q := Resolve(kid, tokens[1..]).location;
      assert ([i] + q)[1..] == q;
      AtValue(Kid(v, i), Root(kid), q);
      var q' := Resolve(kid, tokens[1..] + [t]).location;
      assert ([i] + q')[1..] == q';
      GetAfterErase(kid, tokens[1..], t);
      StepExists(v, tokens[0], Drop(kid, q'));
    }
  }

  lemma DropUnique(v: Value, t: Token)
    requires v.VObject? && UniqueNames(v.members) && StepTo(v, t).Step?
    ensures StepTo(Drop(v, [StepTo(v, t).position]), t) == NoStep
  {
    var ms := v.members;
    var i := Find(ms, t.name);
    var rest := ms[..i] + ms[i + 1..];
    forall j | 0 <= j < |rest|
      ensures rest[j].name != t.name
    {
      assert rest[j] == ms[if j < i then j else j + 1];
    }
  }
}
