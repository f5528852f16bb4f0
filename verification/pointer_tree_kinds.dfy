/** What creation by pointer makes: which containers, and what they hold. */
module PointerTreeKinds {
  import opened JsonText
  import opened JsonValue
  import opened JsonPointer
  import opened PointerTree

  /** The value that stood at depth k of the pointer before, null if there was none. */
  function Was(v: Value, tokens: seq<Token>, k: nat): Value
    requires k <= |tokens|
    decreases k
  {
    if k == 0 then v
    else
      match StepTo(v, tokens[0])
      case NoStep => VNull
      case Step(i) => Was(Kid(v, i).value, tokens[1..], k - 1)
  }

  /** An array stays one for an index or "-"; what is no container becomes one for an index. */
  predicate IsArrayFor(was: Value, t: Token) {
    || (was.VArray? && (t.index != INVALID_INDEX || IsAppend(t)))
    || (!was.VArray? && !was.VObject? && t.index != INVALID_INDEX)
  }

  /** The elements up to the one the token names; those that are new and not below it are null. */
  predicate IsGrownArray(was: Value, t: Token, now: Value, position: nat) {
    var n := if was.VArray? then |was.elements| else 0;
    && now.VArray?
    && position == (if was.VArray? && IsAppend(t) then n else t.index)
    && |now.elements| == (if position < n then n else position + 1)
    && forall j | n <= j < position :: now.elements[j] == VNull
  }

  /** The members, and one more at the end if the token names none of them. */
  predicate IsGrownObject(was: Value, t: Token, now: Value, position: nat) {
    var ms := if was.VObject? then was.members else [];
    && now.VObject?
    && position == Find(ms, t.name)
    && |now.members| == (if position < |ms| then |ms| else |ms| + 1)
    && now.members[position].name == t.name
  }

  predicate IsParent(was: Value, t: Token, now: Value, position: nat) {
    if IsArrayFor(was, t) then IsGrownArray(was, t, now, position) else IsGrownObject(was, t, now, position)
  }

  /** A scalar addressed by an index becomes an array of nulls, addressed by a name an object. */
  lemma ScalarGrows(v: Value, t: Token)
    requires !v.VArray? && !v.VObject?
    ensures var r := Create(v, [t]);
            if t.index != INVALID_INDEX then
              r.root.VArray? && |r.root.elements| == t.index + 1 && forall e | e in r.root.elements :: e == VNull
            else r.root == VObject([Member(t.name, VNull)])
  {
    assert [t][1..] == [];
    assert Create(VNull, []) == Created(VNull, [], true);
  }

  lemma GrownParent(v: Value, t: Token, x: Value)
    requires IsAppend(t) ==> t.index == INVALID_INDEX
    ensures var g := Grow(v, t); IsParent(v, t, PutKid(g.value, g.position, x), g.position)
  {}

  /** A child that is stepped to is the one that was there, a child that is made is null. */
  lemma GrownChild(v: Value, t: Token)
    requires IsAppend(t) ==> t.index == INVALID_INDEX
    ensures var g := Grow(v, t);
            Kid(g.value, g.position).value == match StepTo(v, t) case NoStep => VNull case Step(i) => Kid(v, i).value
  {}

  lemma WasNothing(tokens: seq<Token>, k: nat)
    requires k <= |tokens|
    ensures Was(VNull, tokens, k) == VNull
  {}

  /** On the way to the slot that was created every parent is an array or an object as its token and
      the value before ask for, and has grown by no more than the slot needs. */
  lemma {:induction false} ParentKinds(v: Value, tokens: seq<Token>, k: nat)
    requires k < |tokens| && forall t | t in tokens && IsAppend(t) :: t.index == INVALID_INDEX
    ensures var r := Create(v, tokens);
            && IsIn(r.root, r.slot[..k])
            && IsParent(Was(v, tokens, k), tokens[k], At(Root(r.root), r.slot[..k]).value, r.slot[k])
    decreases k
  {
    hide Grow, StepTo, IsParent;
    var g := Grow(v, tokens[0]);
    var kid := Kid(g.value, g.position).value;
    var below := Create(kid, tokens[1..]);
    if k == 0 {
      GrownParent(v, tokens[0], below.root);
    } else {
      GrownChild(v, tokens[0]);
      WasNothing(tokens[1..], k - 1);
      ParentKinds(kid, tokens[1..], k - 1);
      var r := Create(v, tokens);
      assert r.slot[..k] == [g.position] + below.slot[..k - 1];
      AtValue(Kid(r.root, g.position), Root(below.root), below.slot[..k - 1]);
    }
  }
}
