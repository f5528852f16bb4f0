/** JSON trees as the DOM holds them. */
module JsonValue {
  import opened Widths
  import opened JsonText

  /** The integer types a stored number may be read as. */
  datatype NumberFlags = NumberFlags(asInt: bool, asUint: bool, asInt64: bool, asUint64: bool)

  datatype Value =
    | VNull
    | VBool(b: bool)
    | VNumber(n: int, flags: NumberFlags)
    | VDouble(digits: string)
    | VString(s: string)
    | VArray(elements: seq<Value>)
    | VObject(members: seq<Member>)

  datatype Member = Member(name: string, value: Value)


  // ---------- the number constructors ----------

  function OfInt(i: int): Value
    requires -TWO_31 <= i < TWO_31
  {
    VNumber(i, NumberFlags(true, 0 <= i, true, 0 <= i))
  }

  function OfUint(u: int): Value
    requires 0 <= u < TWO_32
  {
    VNumber(u, NumberFlags(u < TWO_31, true, true, true))
  }

  function OfInt64(i: int): Value
    requires -TWO_63 <= i < TWO_63
  {
    if 0 <= i then VNumber(i, NumberFlags(i < TWO_31, i < TWO_32, true, true))
    else VNumber(i, NumberFlags(-TWO_31 <= i, false, true, false))
  }

  function OfUint64(u: int): Value
    requires 0 <= u < TWO_64
  {
    VNumber(u, NumberFlags(u < TWO_31, u < TWO_32, u < TWO_63, true))
  }

  /** A number is stored with the flags of exactly the types that hold it. */
  predicate ExactFlags(n: int, f: NumberFlags) {
    && (f.asInt <==> -TWO_31 <= n < TWO_31)
    && (f.asUint <==> 0 <= n < TWO_32)
    && (f.asInt64 <==> -TWO_63 <= n < TWO_63)
    && (f.asUint64 <==> 0 <= n < TWO_64)
    && (f.asInt64 || f.asUint64)
  }

  /** The trees the constructors and the handlers build: exact number flags, and no more items in
      a container than its 32-bit size can say. */
  predicate Proper(v: Value)
    decreases v, 0
  {
    match v
    case VNumber(n, flags) => ExactFlags(n, flags)
    case VArray(elements) => |elements| < SIZE_LIMIT && forall e | e in elements :: Proper(e)
    case VObject(members) => |members| < SIZE_LIMIT && forall m | m in members :: Proper(m.value)
    case _ => true
  }

  // ---------- member names ----------

  /** The position of the first member with this name, or the number of members. */
  function Find(ms: seq<Member>, name: string): (i: nat)
    ensures i <= |ms|
    ensures i < |ms| ==> ms[i].name == name
    ensures forall j | 0 <= j < i :: ms[j].name != name
  {
    if ms == [] || ms[0].name == name then 0 else 1 + Find(ms[1..], name)
  }

  predicate UniqueNames(ms: seq<Member>) {
    forall i, j | 0 <= i < j < |ms| :: ms[i].name != ms[j].name
  }

  // ---------- the events of a tree ----------

  /** The event that a number is sent as. */
  function NumberEvent(n: int, flags: NumberFlags): Event {
    if flags.asInt then Int(n)
    else if flags.asUint then Uint(n)
    else if flags.asInt64 then Int64(n)
    else Uint64(n)
  }

  /** The log of a handler after a tree has been sent to it. */
  function Accept(v: Value, log: seq<Event>): seq<Event>
    decreases v, 1
  {
    match v
    case VNull => log + [Null]
    case VBool(b) => log + [Bool(b)]
    case VNumber(n, flags) => log + [NumberEvent(n, flags)]
    case VDouble(digits) => log + [Double(digits)]
    case VString(s) => log + [String(s)]
    case VArray(elements) => AcceptElements(elements, log + [StartArray]) + [EndArray(|elements|)]
    case VObject(members) => AcceptMembers(members, log + [StartObject]) + [EndObject(|members|)]
  }

  function AcceptElements(vs: seq<Value>, log: seq<Event>): seq<Event>
    decreases vs, 0
  {
    if vs == [] then log
    else AcceptElements(vs[1..], Accept(vs[0], log))
  }

  function AcceptMembers(ms: seq<Member>, log: seq<Event>): seq<Event>
    decreases ms, 0
  {
    if ms == [] then log
    else AcceptMembers(ms[1..], Accept(ms[0].value, log + [Key(ms[0].name)]))
  }

  lemma {:induction false} AcceptElementsAppend(vs: seq<Value>, v: Value, log: seq<Event>)
    ensures AcceptElements(vs + [v], log) == Accept(v, AcceptElements(vs, log))
  {
    if vs == [] {
      assert (vs + [v])[1..] == [];
    } else {
      assert (vs + [v])[1..] == vs[1..] + [v];
      AcceptElementsAppend(vs[1..], v, Accept(vs[0], log));
    }
  }

  lemma {:induction false} AcceptMembersAppend(ms: seq<Member>, m: Member, log: seq<Event>)
    ensures AcceptMembers(ms + [m], log) == Accept(m.value, AcceptMembers(ms, log) + [Key(m.name)])
  {
    if ms == [] {
      assert (ms + [m])[1..] == [];
    } else {
      assert (ms + [m])[1..] == ms[1..] + [m];
      AcceptMembersAppend(ms[1..], m, Accept(ms[0].value, log + [Key(ms[0].name)]));
    }
  }
}
