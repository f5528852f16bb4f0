/** The document: a handler whose stack of values turns events into a tree. */
module JsonDocument {
  import opened Widths
  import opened JsonText
  import opened JsonValue
  import opened JsonScalars
  import Recursive = RecursiveParser

  // ---------- the handlers as functions on the stack ----------

  datatype Stack = Underflow | Values(vs: seq<Value>)

  /** Names and values alternate on the stack. */
  function Flat(ms: seq<Member>): (vs: seq<Value>)
    ensures |vs| == 2 * |ms|
    ensures forall i | 0 <= i < |ms| :: vs[2 * i] == VString(ms[i].name) && vs[2 * i + 1] == ms[i].value
  {
    seq(2 * |ms|, i requires 0 <= i < 2 * |ms| =>
      if i % 2 == 0 then VString(ms[i / 2].name) else ms[i / 2].value)
  }

  predicate NamesAreStrings(vs: seq<Value>) {
    |vs| % 2 == 0 && forall i | 0 <= i < |vs| / 2 :: vs[2 * i].VString?
  }

  function ToMembers(vs: seq<Value>): (ms: seq<Member>)
    requires NamesAreStrings(vs)
    ensures |ms| == |vs| / 2
  {
    seq(|vs| / 2, i requires 0 <= i < |vs| / 2 => Member(vs[2 * i].s, vs[2 * i + 1]))
  }

  lemma ToMembersFlat(ms: seq<Member>)
    ensures NamesAreStrings(Flat(ms)) && ToMembers(Flat(ms)) == ms
  {
    var vs := Flat(ms);
    hide Flat;
    assert NamesAreStrings(vs);
    forall i | 0 <= i < |ms| ensures ToMembers(vs)[i] == ms[i] {
      assert vs[2 * i] == VString(ms[i].name) && vs[2 * i + 1] == ms[i].value;
    }
  }

  predicate InRange(e: Event) {
    match e
    case Int(i) => -TWO_31 <= i < TWO_31
    case Uint(i) => 0 <= i < TWO_32
    case Int64(i) => -TWO_63 <= i < TWO_63
    case Uint64(i) => 0 <= i < TWO_64
    case _ => true
  }

  /** One event. Underflow stands for a failed assertion: a pop past the bottom of the stack, or a
      member whose name is not a string. */
  function Apply(st: seq<Value>, e: Event): Stack
    requires InRange(e)
  {
    match e
    case Null => Values(st + [VNull])
    case Bool(b) => Values(st + [VBool(b)])
    case Int(i) => Values(st + [OfInt(i)])
    case Uint(i) => Values(st + [OfUint(i)])
    case Int64(i) => Values(st + [OfInt64(i)])
    case Uint64(i) => Values(st + [OfUint64(i)])
    case Double(d) => Values(st + [VDouble(d)])
    case String(s) => Values(st + [VString(s)])
    case Key(s) => Values(st + [VString(s)])
    case StartObject => Values(st + [VObject([])])
    case StartArray => Values(st + [VArray([])])
    case EndObject(n) =>
      var k := |st| - 2 * n;
      if k < 1 || !NamesAreStrings(st[k..]) then Underflow
      else Values(st[..k - 1] + [VObject(ToMembers(st[k..]))])
    case EndArray(n) =>
      var k := |st| - n;
      if k < 1 then Underflow else Values(st[..k - 1] + [VArray(st[k..])])
  }

  predicate AllInRange(log: seq<Event>) {
    forall i | 0 <= i < |log| :: InRange(log[i])
  }

  /** The stack after a log of events, starting from an empty one. */
  function Replay(log: seq<Event>): Stack
    requires AllInRange(log)
  {
    if log == [] then Values([])
    else
      match Replay(log[..|log| - 1])
      case Underflow => Underflow
      case Values(st) => Apply(st, log[|log| - 1])
  }

  /** The log leaves the given stack, and no handler failed on the way. */
  predicate Builds(log: seq<Event>, st: seq<Value>) {
    AllInRange(log) && Replay(log) == Values(st)
  }

  lemma BuildsAppend(log: seq<Event>, st: seq<Value>, e: Event, st': seq<Value>)
    requires Builds(log, st) && InRange(e) && Apply(st, e) == Values(st')
    ensures Builds(log + [e], st')
  {
    assert (log + [e])[..|log + [e]| - 1] == log;
  }

  lemma EndArrayBuilds(log: seq<Event>, st: seq<Value>, vs: seq<Value>)
    requires Builds(log, st + [VArray([])] + vs)
    ensures Builds(log + [EndArray(|vs|)], st + [VArray(vs)])
  {
    var all := st + [VArray([])] + vs;
    assert all[|st| + 1..] == vs && all[..|st|] == st;
    BuildsAppend(log, all, EndArray(|vs|), st + [VArray(vs)]);
  }

  lemma EndObjectBuilds(log: seq<Event>, st: seq<Value>, ms: seq<Member>)
    requires Builds(log, st + [VObject([])] + Flat(ms))
    ensures Builds(log + [EndObject(|ms|)], st + [VObject(ms)])
  {
    var all := st + [VObject([])] + Flat(ms);
    ToMembersFlat(ms);
    assert all[|st| + 1..] == Flat(ms) && all[..|st|] == st;
    BuildsAppend(log, all, EndObject(|ms|), st + [VObject(ms)]);
  }

  // ---------- replaying a tree ----------

  /** Sending a tree to the document pushes exactly that tree and leaves the stack below alone. */
  lemma {:induction false} AcceptBuilds(v: Value, log: seq<Event>, st: seq<Value>)
    requires Proper(v) && Builds(log, st)
    ensures Builds(Accept(v, log), st + [v])
    decreases v, 1
  {
    hide Builds;
    match v {
      case VNumber(n, flags) =>
        var e := NumberEvent(n, flags);
        NumberKept(n, flags);
        BuildsAppend(log, st, e, st + [v]);
      case VArray(elements) =>
        BuildsAppend(log, st, StartArray, st + [VArray([])]);
        assert st + [VArray([])] + [] == st + [VArray([])];
        AcceptElementsBuilds(elements, log + [StartArray], st + [VArray([])]);
        EndArrayBuilds(AcceptElements(elements, log + [StartArray]), st, elements);
      case VObject(members) =>
        BuildsAppend(log, st, StartObject, st + [VObject([])]);
        assert st + [VObject([])] + Flat([]) == st + [VObject([])];
        AcceptMembersBuilds(members, [], log + [StartObject], st + [VObject([])]);
        assert [] + members == members;
        EndObjectBuilds(AcceptMembers(members, log + [StartObject]), st, members);
      case VNull => BuildsAppend(log, st, Null, st + [v]);
      case VBool(b) => BuildsAppend(log, st, Bool(b), st + [v]);
      case VDouble(d) => BuildsAppend(log, st, Double(d), st + [v]);
      case VString(s) => BuildsAppend(log, st, String(s), st + [v]);
    }
  }

  /** A number is rebuilt with its value and its flags from whatever event it is sent as. */
  lemma NumberKept(n: int, flags: NumberFlags)
    requires ExactFlags(n, flags)
    ensures var e := NumberEvent(n, flags);
            InRange(e) && Apply([], e) == Values([VNumber(n, flags)])
  {}

  /** A tree sends a number as the first type of Int, Uint, Int64 and Uint64 that holds it. */
  lemma NumberSent(n: int, flags: NumberFlags, log: seq<Event>)
    requires Proper(VNumber(n, flags))
    ensures -0x8000_0000_0000_0000 <= n <= 0xFFFF_FFFF_FFFF_FFFF
    ensures Accept(VNumber(n, flags), log) ==
            log + [if -0x8000_0000 <= n <= 0x7FFF_FFFF then Int(n)
                   else if 0 <= n <= 0xFFFF_FFFF then Uint(n)
                   else if n <= 0x7FFF_FFFF_FFFF_FFFF then Int64(n)
                   else Uint64(n)]
  {}

  lemma {:induction false} AcceptElementsBuilds(vs: seq<Value>, log: seq<Event>, st: seq<Value>)
    requires (forall v | v in vs :: Proper(v)) && Builds(log, st)
    ensures Builds(AcceptElements(vs, log), st + vs)
    decreases vs, 0
  {
    hide Builds;
    if vs == [] {
      assert st + vs == st;
    } else {
      AcceptBuilds(vs[0], log, st);
      AcceptElementsBuilds(vs[1..], Accept(vs[0], log), st + [vs[0]]);
      assert st + [vs[0]] + vs[1..] == st + vs;
    }
  }

  lemma {:induction false} AcceptMembersBuilds(ms: seq<Member>, done: seq<Member>, log: seq<Event>, st: seq<Value>)
    requires (forall m | m in ms :: Proper(m.value)) && Builds(log, st + Flat(done))
    ensures Builds(AcceptMembers(ms, log), st + Flat(done + ms))
    decreases ms, 0
  {
    hide Builds, Flat;
    if ms == [] {
      assert done + ms == done;
    } else {
      var m := ms[0];
      var st1 := st + Flat(done) + [VString(m.name)];
      BuildsAppend(log, st + Flat(done), Key(m.name), st1);
      AcceptBuilds(m.value, log + [Key(m.name)], st1);
      FlatAppend(done, m);
      assert st1 + [m.value] == st + Flat(done + [m]);
      AcceptMembersBuilds(ms[1..], done + [m], Accept(m.value, log + [Key(m.name)]), st);
      assert done + [m] + ms[1..] == done + ms;
    }
  }

  lemma FlatAppend(ms: seq<Member>, m: Member)
    ensures Flat(ms + [m]) == Flat(ms) + [VString(m.name), m.value]
  {
    forall i | 0 <= i < 2 * |ms| ensures Flat(ms + [m])[i] == Flat(ms)[i] {
      assert (ms + [m])[i / 2] == ms[i / 2];
    }
  }

  // ---------- what a parse builds ----------

  function FlagsOf(n: int): NumberFlags {
    NumberFlags(-TWO_31 <= n < TWO_31, 0 <= n < TWO_32, -TWO_63 <= n < TWO_63, 0 <= n < TWO_64)
  }

  /** The tree sends a number as the first type that holds it, whatever event it came from. */
  function Narrow(e: Event): Event {
    match e
    case Int(n) => NumberEvent(n, FlagsOf(n))
    case Uint(n) => NumberEvent(n, FlagsOf(n))
    case Int64(n) => NumberEvent(n, FlagsOf(n))
    case Uint64(n) => NumberEvent(n, FlagsOf(n))
    case _ => e
  }

  function NarrowAll(log: seq<Event>): (r: seq<Event>)
    ensures |r| == |log|
  {
    seq(|log|, i requires 0 <= i < |log| => Narrow(log[i]))
  }

  lemma NarrowAppend(log: seq<Event>, e: Event)
    ensures NarrowAll(log + [e]) == NarrowAll(log) + [Narrow(e)]
  {}

  function ScalarValue(e: Event): Value
    requires IsScalarEvent(e) && InRange(e)
  {
    match e
    case Null => VNull
    case Bool(b) => VBool(b)
    case Int(i) => OfInt(i)
    case Uint(i) => OfUint(i)
    case Int64(i) => OfInt64(i)
    case Uint64(i) => OfUint64(i)
    case Double(d) => VDouble(d)
    case String(s) => VString(s)
    case _ => VNull
  }

  /** The log stands for the stack, and is what the trees on top of `from` send. */
  predicate Mirrors(log: seq<Event>, st: seq<Value>, sent: seq<Event>) {
    Builds(log, st) && NarrowAll(log) == sent
  }

  lemma ScalarMirrors(inp: Input, p: nat, log: seq<Event>, st: seq<Value>) returns (v: Value)
    requires p <= |inp.text| && Builds(log, st)
    requires Peek(inp.text, p) != '{' && Peek(inp.text, p) != '['
    ensures Proper(v)
    ensures match ScalarAt(inp, p)
            case Bad(_, _) => true
            case Got(_, e) => Mirrors(log + [e], st + [v], Accept(v, NarrowAll(log)))
  {
    match ScalarAt(inp, p)
    case Bad(_, _) => v := VNull;
    case Got(_, e) =>
      ScalarInRange(inp, p);
      hide ScalarAt;
      v := ScalarValue(e);
      ScalarKept(e, st, NarrowAll(log));
      BuildsAppend(log, st, e, st + [v]);
      NarrowAppend(log, e);
  }

  lemma ScalarKept(e: Event, st: seq<Value>, sent: seq<Event>)
    requires IsScalarEvent(e) && InRange(e)
    ensures var v := ScalarValue(e);
            Proper(v) && Apply(st, e) == Values(st + [v]) && Accept(v, sent) == sent + [Narrow(e)]
  {}

  lemma ScalarInRange(inp: Input, p: nat)
    requires p <= |inp.text|
    requires Peek(inp.text, p) != '{' && Peek(inp.text, p) != '['
    ensures ScalarAt(inp, p).Got? ==> InRange(ScalarAt(inp, p).event)
  {
    hide NumberAt, StringAt, Match;
    NumberInRange(inp, p);
    var r, c := ScalarAt(inp, p), Peek(inp.text, p);
    if c == 'n' || c == 't' || c == 'f' || c == '\"' {
      assert r.Got? ==> r.event.Null? || r.event.Bool? || r.event.String?;
    } else {
      assert r == NumberAt(inp, p);
    }
  }

  lemma NumberInRange(inp: Input, p: nat)
    requires p <= |inp.text|
    ensures NumberAt(inp, p).Got? ==> InRange(NumberAt(inp, p).event)
  {
    if NumberAt(inp, p).Got? {
      var minus := Peek(inp.text, p) == '-';
      var from := if minus then p + 1 else p;
      var n := DigitsValue(inp.text, from, IntegerEnd(inp.text, from));
      var digits := inp.text[p..NumberAt(inp, p).pos];
      IntegerInRange(minus, n, digits);
      hide DigitsValue, IntegerEnd, FractionAt, ExponentAt, IntegerEvent;
      assert NumberAt(inp, p).event == Double(digits) || NumberAt(inp, p).event == IntegerEvent(minus, n, digits);
    }
  }

  lemma IntegerInRange(minus: bool, n: nat, digits: string)
    ensures InRange(IntegerEvent(minus, n, digits))
  {}

  /** After a failure the stack still holds what it held before, below the pieces of the value. */
  predicate Extends(log: seq<Event>, st: seq<Value>) {
    AllInRange(log) && Replay(log).Values? && st <= Replay(log).vs
  }

  /** One tree on top of the stack: it sends the events received since `log`, narrowed. */
  predicate ValueBuilt(r: Outcome, log: seq<Event>, st: seq<Value>, v: Value) {
    match r
    case Done(_, log') => Proper(v) && Mirrors(log', st + [v], Accept(v, NarrowAll(log)))
    case Fail(_, _, log') => Extends(log', st)
  }

  predicate ArrayBuilt(r: Outcome, st: seq<Value>, all: seq<Value>, start: seq<Event>) {
    match r
    case Done(_, log') =>
      && Proper(VArray(all))
      && Mirrors(log', st + [VArray(all)], AcceptElements(all, start) + [EndArray(|all|)])
    case Fail(_, _, log') => Extends(log', st)
  }

  predicate ObjectBuilt(r: Outcome, st: seq<Value>, all: seq<Member>, start: seq<Event>) {
    match r
    case Done(_, log') =>
      && Proper(VObject(all))
      && Mirrors(log', st + [VObject(all)], AcceptMembers(all, start) + [EndObject(|all|)])
    case Fail(_, _, log') => Extends(log', st)
  }

  /** The elements of an array that has been begun are on the stack above its marker. */
  predicate ElementsHeld(log: seq<Event>, st: seq<Value>, vs: seq<Value>, start: seq<Event>) {
    && Mirrors(log, st + [VArray([])] + vs, AcceptElements(vs, start))
    && forall v | v in vs :: Proper(v)
  }

  predicate MembersHeld(log: seq<Event>, st: seq<Value>, ms: seq<Member>, start: seq<Event>) {
    && Mirrors(log, st + [VObject([])] + Flat(ms), AcceptMembers(ms, start))
    && forall m | m in ms :: Proper(m.value)
  }

  predicate NameHeld(log: seq<Event>, st: seq<Value>, ms: seq<Member>, name: string, start: seq<Event>) {
    && Mirrors(log, st + [VObject([])] + Flat(ms) + [VString(name)], AcceptMembers(ms, start) + [Key(name)])
    && forall m | m in ms :: Proper(m.value)
  }

  /** A value that is parsed becomes one tree on the stack, with the stack below untouched; and
      that tree sends the parsed events, up to the integer types it is narrowed to. */
  lemma {:induction false} ValueMirrors(inp: Input, p: nat, log: seq<Event>, st: seq<Value>) returns (v: Value)
    requires p <= |inp.text| < SIZE_LIMIT && Builds(log, st)
    ensures ValueBuilt(Recursive.ValueAt(inp, p, log), log, st, v)
    decreases |inp.text| - p, 2
  {
    hide ScalarAt, Builds, Mirrors, Extends, Accept, NarrowAll, Proper, Recursive.ObjectAt, Recursive.ArrayAt;
    if Peek(inp.text, p) == '{' {
      v := ObjectMirrors(inp, p, log, st);
    } else if Peek(inp.text, p) == '[' {
      v := ArrayMirrors(inp, p, log, st);
    } else {
      v := ScalarMirrors(inp, p, log, st);
      if ScalarAt(inp, p).Bad? {
        assert st + [] == st;
        BuildsExtends(log, st, []);
      }
    }
  }

  lemma {:induction false} ObjectMirrors(inp: Input, p: nat, log: seq<Event>, st: seq<Value>) returns (v: Value)
    requires p < |inp.text| < SIZE_LIMIT && Peek(inp.text, p) == '{' && Builds(log, st)
    ensures ValueBuilt(Recursive.ObjectAt(inp, p, log), log, st, v)
    decreases |inp.text| - p, 1
  {
    var q := Ws(inp.text, p + 1);
    var ms, log1, sent := [], log + [StartObject], NarrowAll(log) + [StartObject];
    ObjectBegins(log, st);
    hide Builds, MembersHeld, ObjectBuilt, ValueBuilt, NarrowAll, Recursive.MembersAt;
    if Peek(inp.text, q) == '}' {
      ObjectCloses(log1, st, [], sent, q + 1);
    } else {
      ms := MembersMirror(inp, q, log1, st, [], sent);
    }
    v := VObject(ms);
    ObjectIsValue(Recursive.ObjectAt(inp, p, log), log, st, ms);
  }

  lemma {:induction false} ArrayMirrors(inp: Input, p: nat, log: seq<Event>, st: seq<Value>) returns (v: Value)
    requires p < |inp.text| < SIZE_LIMIT && Peek(inp.text, p) == '[' && Builds(log, st)
    ensures ValueBuilt(Recursive.ArrayAt(inp, p, log), log, st, v)
    decreases |inp.text| - p, 1
  {
    var q := Ws(inp.text, p + 1);
    var vs, log1, sent := [], log + [StartArray], NarrowAll(log) + [StartArray];
    ArrayBegins(log, st);
    hide Builds, ElementsHeld, ArrayBuilt, ValueBuilt, NarrowAll, Recursive.ElementsAt;
    if Peek(inp.text, q) == ']' {
      ArrayCloses(log1, st, [], sent, q + 1);
    } else {
      vs := ElementsMirror(inp, q, log1, st, [], sent);
    }
    v := VArray(vs);
    ArrayIsValue(Recursive.ArrayAt(inp, p, log), log, st, vs);
  }

  lemma ObjectBegins(log: seq<Event>, st: seq<Value>)
    requires Builds(log, st)
    ensures MembersHeld(log + [StartObject], st, [], NarrowAll(log) + [StartObject])
  {
    BuildsAppend(log, st, StartObject, st + [VObject([])]);
    NarrowAppend(log, StartObject);
    hide Builds;
    assert st + [VObject([])] + Flat([]) == st + [VObject([])];
  }

  lemma ArrayBegins(log: seq<Event>, st: seq<Value>)
    requires Builds(log, st)
    ensures ElementsHeld(log + [StartArray], st, [], NarrowAll(log) + [StartArray])
  {
    BuildsAppend(log, st, StartArray, st + [VArray([])]);
    NarrowAppend(log, StartArray);
    hide Builds;
    assert st + [VArray([])] + [] == st + [VArray([])];
  }

  lemma ObjectIsValue(r: Outcome, log: seq<Event>, st: seq<Value>, ms: seq<Member>)
    requires ObjectBuilt(r, st, ms, NarrowAll(log) + [StartObject])
    ensures ValueBuilt(r, log, st, VObject(ms))
  {
    hide AcceptMembers, Mirrors, Extends, Proper, NarrowAll;
  }

  lemma ArrayIsValue(r: Outcome, log: seq<Event>, st: seq<Value>, vs: seq<Value>)
    requires ArrayBuilt(r, st, vs, NarrowAll(log) + [StartArray])
    ensures ValueBuilt(r, log, st, VArray(vs))
  {
    hide AcceptElements, Mirrors, Extends, Proper, NarrowAll;
  }

  lemma ArrayCloses(log: seq<Event>, st: seq<Value>, vs: seq<Value>, start: seq<Event>, q: nat)
    requires ElementsHeld(log, st, vs, start) && |vs| < SIZE_LIMIT
    ensures ArrayBuilt(Done(q, log + [EndArray(|vs|)]), st, vs, start)
  {
    EndArrayBuilds(log, st, vs);
    NarrowAppend(log, EndArray(|vs|));
    hide Builds;
  }

  lemma ObjectCloses(log: seq<Event>, st: seq<Value>, ms: seq<Member>, start: seq<Event>, q: nat)
    requires MembersHeld(log, st, ms, start) && |ms| < SIZE_LIMIT
    ensures ObjectBuilt(Done(q, log + [EndObject(|ms|)]), st, ms, start)
  {
    EndObjectBuilds(log, st, ms);
    NarrowAppend(log, EndObject(|ms|));
    hide Builds;
  }

  lemma BuildsExtends(log: seq<Event>, st: seq<Value>, more: seq<Value>)
    requires Builds(log, st + more)
    ensures Extends(log, st)
  {}

  lemma ExtendsBelow(log: seq<Event>, st: seq<Value>, more: seq<Value>)
    requires Extends(log, st + more)
    ensures Extends(log, st)
  {}

  lemma ElementsExtend(log: seq<Event>, st: seq<Value>, vs: seq<Value>, start: seq<Event>)
    requires ElementsHeld(log, st, vs, start)
    ensures Extends(log, st) && Builds(log, st + [VArray([])] + vs)
  {
    hide Builds;
    assert st + [VArray([])] + vs == st + ([VArray([])] + vs);
    BuildsExtends(log, st, [VArray([])] + vs);
  }

  /** One more value on top of the elements. */
  lemma ElementHeld(r: Outcome, log: seq<Event>, st: seq<Value>, vs: seq<Value>, v: Value, start: seq<Event>)
    requires ElementsHeld(log, st, vs, start) && ValueBuilt(r, log, st + [VArray([])] + vs, v)
    ensures match r
            case Done(_, log') => ElementsHeld(log', st, vs + [v], start)
            case Fail(_, _, log') => Extends(log', st)
  {
    hide Builds, NarrowAll, Accept, AcceptElements, Extends, Proper;
    AcceptElementsAppend(vs, v, start);
    assert st + [VArray([])] + vs + [v] == st + [VArray([])] + (vs + [v]);
    assert st + [VArray([])] + vs == st + ([VArray([])] + vs);
    if r.Fail? { ExtendsBelow(r.events, st, [VArray([])] + vs); }
  }

  lemma {:induction false} ElementsMirror(inp: Input, p: nat, log: seq<Event>, st: seq<Value>, vs: seq<Value>, start: seq<Event>)
    returns (all: seq<Value>)
    requires p <= |inp.text| < SIZE_LIMIT && |vs| <= p && ElementsHeld(log, st, vs, start)
    ensures ArrayBuilt(Recursive.ElementsAt(inp, p, |vs|, log), st, all, start)
    decreases |inp.text| - p, 3
  {
    ElementsExtend(log, st, vs, start);
    hide Builds, Extends, Mirrors, ElementsHeld, ValueBuilt, ArrayBuilt, Recursive.ValueAt, Recursive.ElementsAt;
    var v := ValueMirrors(inp, p, log, st + [VArray([])] + vs);
    var more, n, log' := ElementStep(inp, p, log, st, vs, start, v);
    all := vs + [v];
    if more {
      all := ElementsMirror(inp, n, log', st, all, start);
    }
  }

  /** Behind an element either another one is read from n on, or the array is complete or broken. */
  lemma ElementStep(inp: Input, p: nat, log: seq<Event>, st: seq<Value>, vs: seq<Value>, start: seq<Event>, v: Value)
    returns (more: bool, n: nat, log': seq<Event>)
    requires p <= |inp.text| < SIZE_LIMIT && |vs| <= p && ElementsHeld(log, st, vs, start)
    requires ValueBuilt(Recursive.ValueAt(inp, p, log), log, st + [VArray([])] + vs, v)
    ensures more ==>
              && p < n <= |inp.text| && ElementsHeld(log', st, vs + [v], start)
              && Recursive.ElementsAt(inp, p, |vs|, log) == Recursive.ElementsAt(inp, n, |vs| + 1, log')
    ensures !more ==> ArrayBuilt(Recursive.ElementsAt(inp, p, |vs|, log), st, vs + [v], start)
  {
    hide Builds, Extends, Mirrors, ElementsHeld, ValueBuilt, ArrayBuilt, Recursive.ValueAt, Recursive.ElementsAt;
    var r := Recursive.ValueAt(inp, p, log);
    ElementHeld(r, log, st, vs, v, start);
    Recursive.AfterElement(inp, p, |vs|, log);
    more, n, log' := false, 0, [];
    if r.Fail? {
      ArrayFails(r.code, r.at, r.events, st, vs + [v], start);
    } else {
      ElementsExtend(r.events, st, vs + [v], start);
      assert Inc(|vs|) == |vs + [v]| < SIZE_LIMIT;
      var q := Ws(inp.text, r.pos);
      if Peek(inp.text, q) == ',' {
        more, n, log' := true, Ws(inp.text, q + 1), r.events;
      } else if Peek(inp.text, q) == ']' {
        ArrayCloses(r.events, st, vs + [v], start, q + 1);
      } else {
        ArrayFails(ArrayMissCommaOrSquareBracket, q, r.events, st, vs + [v], start);
      }
    }
  }

  lemma ArrayFails(code: ErrorCode, at: nat, log: seq<Event>, st: seq<Value>, all: seq<Value>, start: seq<Event>)
    requires Extends(log, st)
    ensures ArrayBuilt(Fail(code, at, log), st, all, start)
  {}

  lemma ObjectFails(code: ErrorCode, at: nat, log: seq<Event>, st: seq<Value>, all: seq<Member>, start: seq<Event>)
    requires Extends(log, st)
    ensures ObjectBuilt(Fail(code, at, log), st, all, start)
  {}

  lemma MembersExtend(log: seq<Event>, st: seq<Value>, ms: seq<Member>, start: seq<Event>)
    requires MembersHeld(log, st, ms, start)
    ensures Extends(log, st)
  {
    hide Builds;
    assert st + [VObject([])] + Flat(ms) == st + ([VObject([])] + Flat(ms));
    BuildsExtends(log, st, [VObject([])] + Flat(ms));
  }

  lemma KeyHeld(log: seq<Event>, st: seq<Value>, ms: seq<Member>, name: string, start: seq<Event>)
    requires MembersHeld(log, st, ms, start)
    ensures NameHeld(log + [Key(name)], st, ms, name, start) && Extends(log + [Key(name)], st)
    ensures Builds(log + [Key(name)], st + [VObject([])] + Flat(ms) + [VString(name)])
  {
    var top := st + [VObject([])] + Flat(ms);
    BuildsAppend(log, top, Key(name), top + [VString(name)]);
    NarrowAppend(log, Key(name));
    hide Builds;
    assert top + [VString(name)] == st + ([VObject([])] + Flat(ms) + [VString(name)]);
    BuildsExtends(log + [Key(name)], st, [VObject([])] + Flat(ms) + [VString(name)]);
  }

  /** A value on top of its name makes one more member. */
  lemma MemberHeld(r: Outcome, log: seq<Event>, st: seq<Value>, ms: seq<Member>, m: Member, start: seq<Event>)
    requires NameHeld(log, st, ms, m.name, start)
    requires ValueBuilt(r, log, st + [VObject([])] + Flat(ms) + [VString(m.name)], m.value)
    ensures match r
            case Done(_, log') => MembersHeld(log', st, ms + [m], start)
            case Fail(_, _, log') => Extends(log', st)
  {
    hide Builds, NarrowAll, Accept, AcceptMembers, Extends, Flat, Proper;
    AcceptMembersAppend(ms, m, start);
    FlatAppend(ms, m);
    var top := st + [VObject([])] + Flat(ms) + [VString(m.name)];
    assert top + [m.value] == st + [VObject([])] + Flat(ms + [m]);
    assert top == st + ([VObject([])] + Flat(ms) + [VString(m.name)]);
    if r.Fail? { ExtendsBelow(r.events, st, [VObject([])] + Flat(ms) + [VString(m.name)]); }
  }

  lemma {:induction false} MembersMirror(inp: Input, p: nat, log: seq<Event>, st: seq<Value>, ms: seq<Member>, start: seq<Event>)
    returns (all: seq<Member>)
    requires p <= |inp.text| < SIZE_LIMIT && |ms| <= p && MembersHeld(log, st, ms, start)
    ensures ObjectBuilt(Recursive.MembersAt(inp, p, |ms|, log), st, all, start)
    decreases |inp.text| - p, 0
  {
    hide Builds, Extends, Mirrors, MembersHeld, StringAt, Recursive.MemberValueAt;
    var t := inp.text;
    all := ms;
    MembersExtend(log, st, ms, start);
    if Peek(t, p) == '\"' && StringAt(t, p).Text? {
      var name := StringAt(t, p).s;
      KeyHeld(log, st, ms, name, start);
      var q := Ws(t, StringAt(t, p).pos);
      if Peek(t, q) == ':' {
        hide ObjectBuilt;
        all := MemberValueMirror(inp, Ws(t, q + 1), log + [Key(name)], st, ms, name, start);
      }
    }
  }

  lemma {:induction false} MemberValueMirror(inp: Input, p: nat, log: seq<Event>, st: seq<Value>, ms: seq<Member>,
                                             name: string, start: seq<Event>) returns (all: seq<Member>)
    requires p <= |inp.text| < SIZE_LIMIT && |ms| < p && NameHeld(log, st, ms, name, start)
    ensures ObjectBuilt(Recursive.MemberValueAt(inp, p, |ms|, log), st, all, start)
    decreases |inp.text| - p, 3
  {
    assert Builds(log, st + [VObject([])] + Flat(ms) + [VString(name)]);
    hide Builds, Extends, Mirrors, MembersHeld, NameHeld, ValueBuilt, ObjectBuilt, Flat,
         Recursive.ValueAt, Recursive.MemberValueAt, Recursive.MembersAt;
    var v := ValueMirrors(inp, p, log, st + [VObject([])] + Flat(ms) + [VString(name)]);
    var m := Member(name, v);
    var more, n, log' := MemberStep(inp, p, log, st, ms, m, start);
    all := ms + [m];
    if more {
      all := MembersMirror(inp, n, log', st, all, start);
    }
  }

  lemma MemberStep(inp: Input, p: nat, log: seq<Event>, st: seq<Value>, ms: seq<Member>, m: Member, start: seq<Event>)
    returns (more: bool, n: nat, log': seq<Event>)
    requires p <= |inp.text| < SIZE_LIMIT && |ms| < p && NameHeld(log, st, ms, m.name, start)
    requires ValueBuilt(Recursive.ValueAt(inp, p, log), log, st + [VObject([])] + Flat(ms) + [VString(m.name)], m.value)
    ensures more ==>
              && p < n <= |inp.text| && MembersHeld(log', st, ms + [m], start)
              && Recursive.MemberValueAt(inp, p, |ms|, log) == Recursive.MembersAt(inp, n, |ms| + 1, log')
    ensures !more ==> ObjectBuilt(Recursive.MemberValueAt(inp, p, |ms|, log), st, ms + [m], start)
  {
    hide Builds, Extends, Mirrors, MembersHeld, NameHeld, ValueBuilt, ObjectBuilt, Flat,
         Recursive.ValueAt, Recursive.MemberValueAt, Recursive.MembersAt;
    var r := Recursive.ValueAt(inp, p, log);
    MemberHeld(r, log, st, ms, m, start);
    Recursive.AfterMemberValue(inp, p, |ms|, log);
    more, n, log' := false, 0, [];
    if r.Fail? {
      ObjectFails(r.code, r.at, r.events, st, ms + [m], start);
    } else {
      MembersExtend(r.events, st, ms + [m], start);
      assert Inc(|ms|) == |ms + [m]| < SIZE_LIMIT;
      var q := Ws(inp.text, r.pos);
      if Peek(inp.text, q) == ',' {
        more, n, log' := true, Ws(inp.text, q + 1), r.events;
      } else if Peek(inp.text, q) == '}' {
        ObjectCloses(r.events, st, ms + [m], start, q + 1);
      } else {
        ObjectFails(ObjectMissCommaOrCurlyBracket, q, r.events, st, ms + [m], start);
      }
    }
  }

  /** Every successful parse leaves exactly one tree on an empty stack, and that tree sends the
      events of the parse, with integers narrowed; a failing parse never underflows the stack. */
  lemma DocumentMirrors(inp: Input) returns (v: Value)
    requires |inp.text| < SIZE_LIMIT
    ensures match Recursive.Document(inp)
            case Done(_, log) => Proper(v) && Mirrors(log, [v], Accept(v, []))
            case Fail(_, _, log) => Extends(log, [])
  {
    hide Recursive.ValueAt;
    v := ValueMirrors(inp, Ws(inp.text, 0), [], []);
  }
}
