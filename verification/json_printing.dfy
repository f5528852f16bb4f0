/** A tree that is printed as a text and parsed again is the same tree. */
module JsonPrinting {
  import opened JsonText
  import opened JsonScalars
  import opened JsonValue
  import opened JsonDocument
  import opened Decimals
  import opened GrammarScalars
  import JsonGrammar
  import JsonNumbers
  import JsonStrings
  import Encodings
  import Recursive = RecursiveParser

  // ---------- texts of trees ----------

  function Sign(n: int): string {
    if n < 0 then "-" else ""
  }

  function Magnitude(n: int): nat {
    if n < 0 then -n else n
  }

  function IntegerText(n: int): string {
    Sign(n) + Decimal(Magnitude(n))
  }

  /** The tree as a text without white space; a double is kept as its text. */
  function Print(v: Value): string
    decreases v, 1
  {
    match v
    case VNull => "null"
    case VBool(b) => if b then "true" else "false"
    case VNumber(n, _) => IntegerText(n)
    case VDouble(digits) => digits
    case VString(s) => JsonStrings.Quoted(s)
    case VArray(vs) => "[" + ElementsText(vs) + "]"
    case VObject(ms) => "{" + MembersText(ms) + "}"
  }

  function ElementsText(vs: seq<Value>): string
    decreases vs, 0
  {
    if vs == [] then "" else if |vs| == 1 then Print(vs[0]) else Print(vs[0]) + "," + ElementsText(vs[1..])
  }

  function MembersText(ms: seq<Member>): string
    decreases ms, 0
  {
    if ms == [] then ""
    else
      var first := JsonStrings.Quoted(ms[0].name) + ":" + Print(ms[0].value);
      if |ms| == 1 then first else first + "," + MembersText(ms[1..])
  }

  /** The number of a double's text that has no point and no exponent does not fit 64 bits. */
  predicate IsBig(digits: string) {
    var minus := Peek(digits, 0) == '-';
    var from := if minus then 1 else 0;
    from <= |digits| && !Fits64(minus, DigitsValue(digits, from, |digits|))
  }

  ghost predicate IsDoubleText(digits: string, overflows: string -> bool) {
    JsonGrammar.HasNumberForm(digits) && JsonGrammar.InRange(digits, overflows)
    && (JsonNumbers.IsFloating(digits) || IsBig(digits))
  }

  /** Doubles are texts that are read as doubles; everything else can be printed as it is. */
  ghost predicate Printable(v: Value, overflows: string -> bool)
    decreases v, 0
  {
    match v
    case VDouble(digits) => IsDoubleText(digits, overflows)
    case VArray(vs) => forall e | e in vs :: Printable(e, overflows)
    case VObject(ms) => forall m | m in ms :: Printable(m.value, overflows)
    case _ => true
  }

  // ---------- scalars ----------

  /** The printed value at p is read to its end and sends what the tree sends. */
  predicate Reads(inp: Input, p: nat, v: Value, log: seq<Event>)
    requires p <= |inp.text|
  {
    var r := Recursive.ValueAt(inp, p, log);
    r.Done? && r.pos == p + |Print(v)| && NarrowAll(r.events) == Accept(v, NarrowAll(log))
  }

  lemma ScalarReads(inp: Input, p: nat, v: Value, e: Event, log: seq<Event>)
    requires p <= |inp.text| && Peek(inp.text, p) != '{' && Peek(inp.text, p) != '['
    requires ScalarAt(inp, p) == Got(p + |Print(v)|, e)
    requires Accept(v, NarrowAll(log)) == NarrowAll(log) + [Narrow(e)]
    ensures Reads(inp, p, v, log)
  {
    hide ScalarAt, Narrow, NarrowAll, Print;
    NarrowAppend(log, e);
  }

  lemma WordReads(inp: Input, p: nat, v: Value, log: seq<Event>)
    requires (v.VNull? || v.VBool?) && Has(inp.text, p, Print(v))
    ensures p <= |inp.text| && Reads(inp, p, v, log)
  {
    hide Literal, NumberAt, StringAt;
    var word := Print(v);
    var e := match v case VNull => Null case VBool(b) => Bool(b);
    assert inp.text[p..p + |word|] == word;
    LiteralComplete(inp.text, p, p + |word|, word, e);
    ScalarReads(inp, p, v, e, log);
  }

  lemma IntegerHead(n: int)
    ensures IntegerText(n) != "" && (IntegerText(n)[0] == '-' || IsDigit(IntegerText(n)[0]))
  {
    assert Decimal(Magnitude(n))[0] in Decimal(Magnitude(n));
  }

  lemma IntegerReads(inp: Input, p: nat, n: int, flags: NumberFlags, log: seq<Event>)
    requires Proper(VNumber(n, flags)) && Has(inp.text, p, IntegerText(n))
    requires Stops(Peek(inp.text, p + |IntegerText(n)|))
    ensures p <= |inp.text| && Reads(inp, p, VNumber(n, flags), log)
  {
    hide Decimal, NumberAt;
    var t := inp.text;
    IntegerHead(n);
    HasAt(t, p, IntegerText(n), 0);
    JsonNumbers.IntegerDelivered(inp, p, n < 0, Magnitude(n));
    var e := NumberAt(inp, p).event;
    assert Narrow(e) == NumberEvent(n, flags);
    assert ScalarAt(inp, p) == NumberAt(inp, p);
    ScalarReads(inp, p, VNumber(n, flags), e, log);
  }

  lemma DoubleReads(inp: Input, p: nat, digits: string, log: seq<Event>)
    requires IsDoubleText(digits, inp.overflows) && Has(inp.text, p, digits)
    requires Stops(Peek(inp.text, p + |digits|))
    ensures p <= |inp.text| && Reads(inp, p, VDouble(digits), log)
  {
    hide NumberAt, JsonGrammar.HasNumberForm, JsonGrammar.InRange, JsonNumbers.IsFloating, IsBig, JsonGrammar.Fits, Parts;
    var t, q := inp.text, p + |digits|;
    var l := JsonGrammar.Limits(true, true, inp.overflows);
    assert t[p..q] == digits;
    NumberComplete(inp, p, q, l);
    JsonNumbers.DoubleDelivered(inp, p);
    if !JsonNumbers.IsFloating(digits) { BigDelivered(inp, p, q); }
    assert ScalarAt(inp, p) == NumberAt(inp, p);
    ScalarReads(inp, p, VDouble(digits), Double(digits), log);
  }

  /** An integer beyond 64 bits is delivered as a double. */
  lemma BigDelivered(inp: Input, p: nat, q: nat)
    requires p < q <= |inp.text| && NumberAt(inp, p).Got? && NumberAt(inp, p).pos == q && IsBig(inp.text[p..q])
    ensures NumberAt(inp, p).event.Double?
  {
    hide DigitsValue, IntegerEnd, FractionScale;
    var t := inp.text;
    var from := if Peek(t, p) == '-' then p + 1 else p;
    assert t[p..q][0] == t[p];
    DigitsValueWithin(t, p, q, from, q);
  }

  lemma StringReads(inp: Input, p: nat, s: string, log: seq<Event>)
    requires Has(inp.text, p, JsonStrings.Quoted(s))
    ensures p <= |inp.text| && Reads(inp, p, VString(s), log)
  {
    hide JsonStrings.Quoted, StringAt, Has;
    JsonStrings.EscapedRead(inp.text, p, s);
    ScalarReads(inp, p, VString(s), String(s), log);
  }

  // ---------- containers ----------

  lemma NoSpace(t: string, p: nat)
    requires p <= |t| && !IsWs(Peek(t, p))
    ensures Ws(t, p) == p
  {}

  /** What a printed value begins with. */
  predicate Begins(c: char) {
    !IsWs(c) && c != ']' && c != '}' && c != NUL
  }

  lemma PrintBegins(v: Value, overflows: string -> bool)
    requires Printable(v, overflows)
    ensures Print(v) != "" && Begins(Print(v)[0])
  {
    match v
    case VNumber(n, _) => IntegerHead(n);
    case VDouble(d) => DoubleBegins(d);
    case _ =>
  }

  lemma DoubleBegins(d: string)
    requires JsonGrammar.HasNumberForm(d)
    ensures d != "" && (d[0] == '-' || IsDigit(d[0]))
  {
    if JsonGrammar.IsUnsigned(d) {
      var i, j := UnsignedWitness(d);
      assert d[..i][0] == d[0];
    }
  }

  lemma ElementsBegin(vs: seq<Value>, overflows: string -> bool)
    requires vs != [] && forall e | e in vs :: Printable(e, overflows)
    ensures ElementsText(vs) != "" && Begins(ElementsText(vs)[0])
  {
    PrintBegins(vs[0], overflows);
  }

  lemma MembersBegin(ms: seq<Member>)
    requires ms != []
    ensures MembersText(ms) != "" && MembersText(ms)[0] == '\"'
  {}

  /** A printed tree is read back: the reader sends what the tree sends. */
  lemma {:induction false} PrintReads(inp: Input, p: nat, v: Value, log: seq<Event>)
    requires Proper(v) && Printable(v, inp.overflows) && Has(inp.text, p, Print(v))
    requires Stops(Peek(inp.text, p + |Print(v)|))
    ensures p <= |inp.text| && Reads(inp, p, v, log)
    decreases v, 1
  {
    hide Print, Reads, Has, IsDoubleText;
    match v
    case VNull => WordReads(inp, p, v, log);
    case VBool(_) => WordReads(inp, p, v, log);
    case VNumber(n, flags) =>
      assert Print(v) == IntegerText(n) by { PrintScalar(v); }
      IntegerReads(inp, p, n, flags, log);
    case VDouble(d) =>
      assert Print(v) == d by { PrintScalar(v); }
      DoubleReads(inp, p, d, log);
    case VString(s) =>
      assert Print(v) == JsonStrings.Quoted(s) by { PrintScalar(v); }
      StringReads(inp, p, s, log);
    case VArray(vs) => ArrayReads(inp, p, vs, log);
    case VObject(ms) => ObjectReads(inp, p, ms, log);
  }

  lemma PrintScalar(v: Value)
    ensures match v
            case VNumber(n, _) => Print(v) == IntegerText(n)
            case VDouble(d) => Print(v) == d
            case VString(s) => Print(v) == JsonStrings.Quoted(s)
            case VArray(vs) => Print(v) == "[" + (ElementsText(vs) + "]")
            case VObject(ms) => Print(v) == "{" + (MembersText(ms) + "}")
            case _ => true
  {
    hide IntegerText, JsonStrings.Quoted, ElementsText, MembersText;
  }

  lemma {:induction false} ArrayReads(inp: Input, p: nat, vs: seq<Value>, log: seq<Event>)
    requires Proper(VArray(vs)) && Printable(VArray(vs), inp.overflows) && Has(inp.text, p, Print(VArray(vs)))
    ensures p <= |inp.text| && Reads(inp, p, VArray(vs), log)
    decreases vs, 1
  {
    hide Print, ElementsText, Has, NarrowAll, Recursive.ArrayAt, Recursive.ElementsAt, Ws, Spaces;
    var t := inp.text;
    PrintScalar(VArray(vs));
    HasSplit(t, p, "[", ElementsText(vs) + "]");
    HasAt(t, p, "[", 0);
    Recursive.ArrayStarts(inp, p, log);
    NarrowAppend(log, StartArray);
    if vs == [] {
      EmptyTexts();
      HasAt(t, p + 1, "]", 0);
      NoSpace(t, p + 1);
      NarrowAppend(log + [StartArray], EndArray(0));
    } else {
      ElementsBegin(vs, inp.overflows);
      HasAt(t, p + 1, ElementsText(vs) + "]", 0);
      NoSpace(t, p + 1);
      ElementsRead(inp, p + 1, vs, 0, log + [StartArray]);
    }
  }

  lemma EmptyTexts()
    ensures ElementsText([]) == "" && MembersText([]) == ""
    ensures ElementsText([]) + "]" == "]" && MembersText([]) + "}" == "}"
  {}

  /** Behind an element comes the end of the array, or a comma and the next element. */
  lemma ElementEnds(inp: Input, p: nat, v: Value, count: nat, log: seq<Event>)
    requires p <= |inp.text| && Reads(inp, p, v, log) && count + 1 < SIZE_LIMIT
    ensures var q, log1 := p + |Print(v)|, Recursive.ValueAt(inp, p, log).events;
            && q <= |inp.text| && NarrowAll(log1) == Accept(v, NarrowAll(log))
            && (Peek(inp.text, q) == ']' ==> Recursive.ElementsAt(inp, p, count, log) == Done(q + 1, log1 + [EndArray(count + 1)]))
            && (Peek(inp.text, q) == ',' && !IsWs(Peek(inp.text, q + 1)) ==>
                  q < |inp.text| && Recursive.ElementsAt(inp, p, count, log) == Recursive.ElementsAt(inp, q + 1, count + 1, log1))
  {
    hide Print, NarrowAll, Recursive.ValueAt, Recursive.ElementsAt, Ws, Spaces;
    var q := p + |Print(v)|;
    if Peek(inp.text, q) == ']' || Peek(inp.text, q) == ',' { NoSpace(inp.text, q); }
    if q < |inp.text| && !IsWs(Peek(inp.text, q + 1)) { NoSpace(inp.text, q + 1); }
    Recursive.AfterElement(inp, p, count, log);
  }

  lemma {:induction false} ElementsRead(inp: Input, p: nat, vs: seq<Value>, count: nat, log: seq<Event>)
    requires vs != [] && count + |vs| < SIZE_LIMIT
    requires forall e | e in vs :: Proper(e) && Printable(e, inp.overflows)
    requires Has(inp.text, p, ElementsText(vs) + "]")
    ensures p <= |inp.text|
    ensures var r := Recursive.ElementsAt(inp, p, count, log);
            && r.Done? && r.pos == p + |ElementsText(vs)| + 1
            && NarrowAll(r.events) == AcceptElements(vs, NarrowAll(log)) + [EndArray(count + |vs|)]
    decreases vs, 0
  {
    hide Print, ElementsText, Has, NarrowAll, Reads, Accept, Recursive.ValueAt, Recursive.ElementsAt, Ws, Spaces, Proper, Printable;
    var t, v := inp.text, vs[0];
    var tail := if |vs| == 1 then "]" else "," + (ElementsText(vs[1..]) + "]");
    ElementsTextIs(vs);
    HasSplit(t, p, Print(v), tail);
    var q := p + |Print(v)|;
    HasWithin(t, q, tail);
    PrintReads(inp, p, v, log);
    ElementEnds(inp, p, v, count, log);
    var log1 := Recursive.ValueAt(inp, p, log).events;
    if |vs| == 1 {
      NarrowAppend(log1, EndArray(count + 1));
      assert vs[1..] == [];
    } else {
      HasSplit(t, q, ",", ElementsText(vs[1..]) + "]");
      ElementsBegin(vs[1..], inp.overflows);
      HasWithin(t, q + 1, ElementsText(vs[1..]) + "]");
      ElementsRead(inp, q + 1, vs[1..], count + 1, log1);
    }
  }

  lemma HasWithin(t: string, p: nat, word: string)
    requires Has(t, p, word) && word != ""
    ensures p < |t| && Peek(t, p) == t[p] == word[0]
  {
    HasAt(t, p, word, 0);
  }

  lemma Grouped(first: string, rest: string, close: string)
    ensures first + "," + rest + close == first + ("," + (rest + close))
  {}

  lemma ElementsTextIs(vs: seq<Value>)
    requires vs != []
    ensures ElementsText(vs) + "]" == Print(vs[0]) + if |vs| == 1 then "]" else "," + (ElementsText(vs[1..]) + "]")
    ensures |ElementsText(vs)| == |Print(vs[0])| + if |vs| == 1 then 0 else 1 + |ElementsText(vs[1..])|
  {
    hide Print, ElementsText;
    ElementsUnfold(vs);
    if |vs| != 1 { Grouped(Print(vs[0]), ElementsText(vs[1..]), "]"); }
  }

  lemma ElementsUnfold(vs: seq<Value>)
    requires vs != []
    ensures ElementsText(vs) == if |vs| == 1 then Print(vs[0]) else Print(vs[0]) + "," + ElementsText(vs[1..])
  {
    hide Print;
  }

  lemma {:induction false} ObjectReads(inp: Input, p: nat, ms: seq<Member>, log: seq<Event>)
    requires Proper(VObject(ms)) && Printable(VObject(ms), inp.overflows) && Has(inp.text, p, Print(VObject(ms)))
    ensures p <= |inp.text| && Reads(inp, p, VObject(ms), log)
    decreases ms, 1
  {
    hide Print, MembersText, Has, NarrowAll, Recursive.ObjectAt, Recursive.MembersAt, Ws, Spaces;
    var t := inp.text;
    PrintScalar(VObject(ms));
    HasSplit(t, p, "{", MembersText(ms) + "}");
    HasAt(t, p, "{", 0);
    Recursive.ObjectStarts(inp, p, log);
    NarrowAppend(log, StartObject);
    if ms == [] {
      EmptyTexts();
      HasAt(t, p + 1, "}", 0);
      NoSpace(t, p + 1);
      NarrowAppend(log + [StartObject], EndObject(0));
    } else {
      MembersBegin(ms);
      HasAt(t, p + 1, MembersText(ms) + "}", 0);
      NoSpace(t, p + 1);
      MembersRead(inp, p + 1, ms, 0, log + [StartObject]);
    }
  }

  /** Behind the value of a member comes the end of the object, or a comma and the next member. */
  lemma MemberEnds(inp: Input, p: nat, v: Value, count: nat, log: seq<Event>)
    requires p <= |inp.text| && Reads(inp, p, v, log) && count + 1 < SIZE_LIMIT
    ensures var q, log1 := p + |Print(v)|, Recursive.ValueAt(inp, p, log).events;
            && q <= |inp.text| && NarrowAll(log1) == Accept(v, NarrowAll(log))
            && (Peek(inp.text, q) == '}' ==> Recursive.MemberValueAt(inp, p, count, log) == Done(q + 1, log1 + [EndObject(count + 1)]))
            && (Peek(inp.text, q) == ',' && !IsWs(Peek(inp.text, q + 1)) ==>
                  q < |inp.text| && Recursive.MemberValueAt(inp, p, count, log) == Recursive.MembersAt(inp, q + 1, count + 1, log1))
  {
    hide Print, NarrowAll, Recursive.ValueAt, Recursive.MemberValueAt, Recursive.MembersAt, Ws, Spaces;
    var q := p + |Print(v)|;
    if Peek(inp.text, q) == '}' || Peek(inp.text, q) == ',' { NoSpace(inp.text, q); }
    if q < |inp.text| && !IsWs(Peek(inp.text, q + 1)) { NoSpace(inp.text, q + 1); }
    Recursive.AfterMemberValue(inp, p, count, log);
  }

  lemma {:induction false} MembersRead(inp: Input, p: nat, ms: seq<Member>, count: nat, log: seq<Event>)
    requires ms != [] && count + |ms| < SIZE_LIMIT
    requires forall m | m in ms :: Proper(m.value) && Printable(m.value, inp.overflows)
    requires Has(inp.text, p, MembersText(ms) + "}")
    ensures p <= |inp.text|
    ensures var r := Recursive.MembersAt(inp, p, count, log);
            && r.Done? && r.pos == p + |MembersText(ms)| + 1
            && NarrowAll(r.events) == AcceptMembers(ms, NarrowAll(log)) + [EndObject(count + |ms|)]
    decreases ms, 0
  {
    hide Print, MembersText, Has, NarrowAll, Reads, Accept, Recursive.ValueAt, Recursive.MembersAt, Recursive.MemberValueAt, Ws,
         Spaces, Proper, Printable, JsonStrings.Quoted, StringAt;
    var t, m := inp.text, ms[0];
    var tail := if |ms| == 1 then "}" else "," + (MembersText(ms[1..]) + "}");
    MembersTextIs(ms);
    KeyRead(inp, p, m.name, Print(m.value) + tail, count, log);
    var p1 := p + |JsonStrings.Quoted(m.name)| + 1;
    HasSplit(t, p1, Print(m.value), tail);
    var q := p1 + |Print(m.value)|;
    HasWithin(t, q, tail);
    PrintBegins(m.value, inp.overflows);
    HasWithin(t, p1, Print(m.value));
    NoSpace(t, p1);
    var log0 := log + [Key(m.name)];
    NarrowAppend(log, Key(m.name));
    PrintReads(inp, p1, m.value, log0);
    MemberEnds(inp, p1, m.value, count, log0);
    var log1 := Recursive.ValueAt(inp, p1, log0).events;
    if |ms| == 1 {
      NarrowAppend(log1, EndObject(count + 1));
      assert ms[1..] == [];
    } else {
      HasSplit(t, q, ",", MembersText(ms[1..]) + "}");
      MembersBegin(ms[1..]);
      HasWithin(t, q + 1, MembersText(ms[1..]) + "}");
      MembersRead(inp, q + 1, ms[1..], count + 1, log1);
    }
  }

  /** A printed name and the colon behind it. */
  lemma KeyRead(inp: Input, p: nat, name: string, rest: string, count: nat, log: seq<Event>)
    requires Has(inp.text, p, JsonStrings.Quoted(name) + (":" + rest))
    ensures var p1 := p + |JsonStrings.Quoted(name)| + 1;
            && p < p1 <= |inp.text| && Has(inp.text, p1, rest)
            && Recursive.MembersAt(inp, p, count, log) == Recursive.MemberValueAt(inp, Ws(inp.text, p1), count, log + [Key(name)])
  {
    hide JsonStrings.Quoted, Has, StringAt, Recursive.MembersAt, Recursive.MemberValueAt, Ws, Spaces;
    var t, word := inp.text, JsonStrings.Quoted(name);
    HasSplit(t, p, word, ":" + rest);
    HasSplit(t, p + |word|, ":", rest);
    HasWithin(t, p + |word|, ":" + rest);
    JsonStrings.EscapedRead(t, p, name);
    NoSpace(t, p + |word|);
    Recursive.MembersGo(inp, p, count, log);
  }

  lemma MembersTextIs(ms: seq<Member>)
    requires ms != []
    ensures var tail := if |ms| == 1 then "}" else "," + (MembersText(ms[1..]) + "}");
            MembersText(ms) + "}" == JsonStrings.Quoted(ms[0].name) + (":" + (Print(ms[0].value) + tail))
    ensures |MembersText(ms)| == |JsonStrings.Quoted(ms[0].name)| + 1 + |Print(ms[0].value)|
            + if |ms| == 1 then 0 else 1 + |MembersText(ms[1..])|
  {
    hide Print, JsonStrings.Quoted, MembersText;
    MembersUnfold(ms);
    var name, value := JsonStrings.Quoted(ms[0].name), Print(ms[0].value);
    var tail := if |ms| == 1 then "}" else "," + (MembersText(ms[1..]) + "}");
    if |ms| != 1 { Grouped(name + ":" + value, MembersText(ms[1..]), "}"); }
    Named(name, value, tail);
  }

  lemma Named(name: string, value: string, tail: string)
    ensures name + ":" + value + tail == name + (":" + (value + tail))
  {}

  lemma MembersUnfold(ms: seq<Member>)
    requires ms != []
    ensures var first := JsonStrings.Quoted(ms[0].name) + ":" + Print(ms[0].value);
            MembersText(ms) == if |ms| == 1 then first else first + "," + MembersText(ms[1..])
  {
    hide Print, JsonStrings.Quoted;
  }

  // ---------- documents ----------

  /** Trees that send the same events are the same. */
  lemma AcceptInjective(v: Value, w: Value)
    requires Proper(v) && Proper(w) && Accept(v, []) == Accept(w, [])
    ensures v == w
  {
    hide Accept, Proper;
    AcceptBuilds(v, [], []);
    AcceptBuilds(w, [], []);
    assert [] + [v] == [v] && [] + [w] == [w];
    assert [v][0] == [w][0];
  }

  /** A tree that is printed and parsed gives itself back: the parse succeeds at the end of the text, and
      the one tree that sends its events is the one that was printed. */
  lemma PrintedParsed(inp: Input, v: Value)
    requires Proper(v) && Printable(v, inp.overflows) && inp.text == Print(v)
    ensures match Recursive.Document(inp)
            case Done(q, log) =>
              && q == |inp.text| && NarrowAll(log) == Accept(v, [])
              && forall root | Proper(root) && NarrowAll(log) == Accept(root, []) :: root == v
            case Fail(_, _, _) => false
  {
    hide Print, Proper, Printable, NarrowAll, Recursive.ValueAt, Ws, Spaces;
    PrintBegins(v, inp.overflows);
    NoSpace(inp.text, 0);
    PrintReads(inp, 0, v, []);
    NoSpace(inp.text, |inp.text|);
    NoEvents();
    var log := Recursive.ValueAt(inp, 0, []).events;
    forall root | Proper(root) && NarrowAll(log) == Accept(root, []) ensures root == v { AcceptInjective(root, v); }
  }

  lemma NoEvents()
    ensures NarrowAll([]) == []
  {}
}
