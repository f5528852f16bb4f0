/** The recursive-descent parser, as a function from a cursor and an event log to an outcome.
    The log is passed in, so every loop of the reader is a tail call here. */
module RecursiveParser {
  import opened JsonText
  import opened JsonScalars

  /** Any value at p. */
  function ValueAt(inp: Input, p: nat, events: seq<Event>): (r: Outcome)
    requires p <= |inp.text|
    ensures r.Done? ==> p < r.pos <= |inp.text|
    decreases |inp.text| - p, 2
  {
    var c := Peek(inp.text, p);
    if c == '{' then ObjectAt(inp, p, events)
    else if c == '[' then ArrayAt(inp, p, events)
    else
      match ScalarAt(inp, p)
      case Got(q, e) => Done(q, events + [e])
      case Bad(code, at) => Fail(code, at, events)
  }

  function ObjectAt(inp: Input, p: nat, events: seq<Event>): (r: Outcome)
    requires p <= |inp.text| && Peek(inp.text, p) == '{'
    ensures r.Done? ==> p < r.pos <= |inp.text|
    decreases |inp.text| - p, 1
  {
    var q := Ws(inp.text, p + 1);
    var ev := events + [StartObject];
    if Peek(inp.text, q) == '}' then Done(q + 1, ev + [EndObject(0)])
    else MembersAt(inp, q, 0, ev)
  }

  /** The members of an object from p on; `count` members have been passed. */
  function MembersAt(inp: Input, p: nat, count: nat, events: seq<Event>): (r: Outcome)
    requires p <= |inp.text|
    ensures r.Done? ==> p < r.pos <= |inp.text|
    decreases |inp.text| - p, 0
  {
    var t := inp.text;
    if Peek(t, p) != '\"' then Fail(ObjectMissName, p, events)
    else
      match StringAt(t, p)
      case BadText(code, at) => Fail(code, at, events)
      case Text(p1, s) =>
        var ev := events + [Key(s)];
        var q1 := Ws(t, p1);
        if Peek(t, q1) != ':' then Fail(ObjectMissColon, q1, ev)
        else MemberValueAt(inp, Ws(t, q1 + 1), count, ev)
  }

  /** The value of a member, at p, and the members behind it. */
  function MemberValueAt(inp: Input, p: nat, count: nat, events: seq<Event>): (r: Outcome)
    requires p <= |inp.text|
    ensures r.Done? ==> p < r.pos <= |inp.text|
    decreases |inp.text| - p, 3
  {
    var t := inp.text;
    match ValueAt(inp, p, events)
    case Fail(code, at, ev) => Fail(code, at, ev)
    case Done(p1, ev) =>
      var q := Ws(t, p1);
      if Peek(t, q) == ',' then MembersAt(inp, Ws(t, q + 1), Inc(count), ev)
      else if Peek(t, q) == '}' then Done(q + 1, ev + [EndObject(Inc(count))])
      else Fail(ObjectMissCommaOrCurlyBracket, q, ev)
  }

  function ArrayAt(inp: Input, p: nat, events: seq<Event>): (r: Outcome)
    requires p <= |inp.text| && Peek(inp.text, p) == '['
    ensures r.Done? ==> p < r.pos <= |inp.text|
    decreases |inp.text| - p, 1
  {
    var q := Ws(inp.text, p + 1);
    var ev := events + [StartArray];
    if Peek(inp.text, q) == ']' then Done(q + 1, ev + [EndArray(0)])
    else ElementsAt(inp, q, 0, ev)
  }

  /** The elements of an array from p on; `count` elements have been passed. */
  function ElementsAt(inp: Input, p: nat, count: nat, events: seq<Event>): (r: Outcome)
    requires p <= |inp.text|
    ensures r.Done? ==> p < r.pos <= |inp.text|
    decreases |inp.text| - p, 3
  {
    var t := inp.text;
    match ValueAt(inp, p, events)
    case Fail(code, at, ev) => Fail(code, at, ev)
    case Done(p1, ev) =>
      var q := Ws(t, p1);
      if Peek(t, q) == ',' then ElementsAt(inp, Ws(t, q + 1), Inc(count), ev)
      else if Peek(t, q) == ']' then Done(q + 1, ev + [EndArray(Inc(count))])
      else Fail(ArrayMissCommaOrSquareBracket, q, ev)
  }

  // ---------- one step of each ----------

  lemma AfterElement(inp: Input, p: nat, count: nat, log: seq<Event>)
    requires p <= |inp.text|
    ensures ElementsAt(inp, p, count, log) ==
            match ValueAt(inp, p, log)
            case Fail(code, at, ev) => Fail(code, at, ev)
            case Done(p1, ev) =>
              var q := Ws(inp.text, p1);
              if Peek(inp.text, q) == ',' then ElementsAt(inp, Ws(inp.text, q + 1), Inc(count), ev)
              else if Peek(inp.text, q) == ']' then Done(q + 1, ev + [EndArray(Inc(count))])
              else Fail(ArrayMissCommaOrSquareBracket, q, ev)
  {
    hide ValueAt;
  }

  lemma AfterMemberValue(inp: Input, p: nat, count: nat, log: seq<Event>)
    requires p <= |inp.text|
    ensures MemberValueAt(inp, p, count, log) ==
            match ValueAt(inp, p, log)
            case Fail(code, at, ev) => Fail(code, at, ev)
            case Done(p1, ev) =>
              var q := Ws(inp.text, p1);
              if Peek(inp.text, q) == ',' then MembersAt(inp, Ws(inp.text, q + 1), Inc(count), ev)
              else if Peek(inp.text, q) == '}' then Done(q + 1, ev + [EndObject(Inc(count))])
              else Fail(ObjectMissCommaOrCurlyBracket, q, ev)
  {
    hide ValueAt, MembersAt;
  }

  /** Behind a value comes another one or the end of the array. */
  lemma ElementsEnd(inp: Input, p: nat, count: nat, log: seq<Event>)
    requires p <= |inp.text| && ElementsAt(inp, p, count, log).Done?
    ensures ValueAt(inp, p, log).Done?
    ensures var v := ValueAt(inp, p, log); var q := Ws(inp.text, v.pos);
            && q < |inp.text| && (inp.text[q] == ',' || inp.text[q] == ']')
            && (inp.text[q] == ',' ==>
                  ElementsAt(inp, p, count, log) == ElementsAt(inp, Ws(inp.text, q + 1), Inc(count), v.events))
            && (inp.text[q] == ']' ==> ElementsAt(inp, p, count, log).pos == q + 1)
  {
    hide ValueAt;
  }

  lemma MembersEnd(inp: Input, p: nat, count: nat, log: seq<Event>)
    requires p <= |inp.text| && MemberValueAt(inp, p, count, log).Done?
    ensures ValueAt(inp, p, log).Done?
    ensures var v := ValueAt(inp, p, log); var q := Ws(inp.text, v.pos);
            && q < |inp.text| && (inp.text[q] == ',' || inp.text[q] == '}')
            && (inp.text[q] == ',' ==>
                  MemberValueAt(inp, p, count, log) == MembersAt(inp, Ws(inp.text, q + 1), Inc(count), v.events))
            && (inp.text[q] == '}' ==> MemberValueAt(inp, p, count, log).pos == q + 1)
  {
    hide ValueAt, MembersAt;
  }

  /** What comes of the rest of an array, by what comes of the value and stands behind it. */
  lemma ElementsGo(inp: Input, p: nat, count: nat, log: seq<Event>)
    requires p <= |inp.text|
    ensures var v, r := ValueAt(inp, p, log), ElementsAt(inp, p, count, log);
            && (v.Fail? ==> r.Fail? && r.code == v.code)
            && (v.Done? ==>
                  var q := Ws(inp.text, v.pos);
                  && (Peek(inp.text, q) == ',' ==> r == ElementsAt(inp, Ws(inp.text, q + 1), Inc(count), v.events))
                  && (Peek(inp.text, q) == ']' ==> r.Done? && r.pos == q + 1))
  {
    hide ValueAt;
  }

  lemma MemberValueGo(inp: Input, p: nat, count: nat, log: seq<Event>)
    requires p <= |inp.text|
    ensures var v, r := ValueAt(inp, p, log), MemberValueAt(inp, p, count, log);
            && (v.Fail? ==> r.Fail? && r.code == v.code)
            && (v.Done? ==>
                  var q := Ws(inp.text, v.pos);
                  && (Peek(inp.text, q) == ',' ==> r == MembersAt(inp, Ws(inp.text, q + 1), Inc(count), v.events))
                  && (Peek(inp.text, q) == '}' ==> r.Done? && r.pos == q + 1))
  {
    hide ValueAt, MembersAt;
  }

  lemma MembersGo(inp: Input, p: nat, count: nat, log: seq<Event>)
    requires p <= |inp.text| && Peek(inp.text, p) == '\"'
    ensures var key, r := StringAt(inp.text, p), MembersAt(inp, p, count, log);
            && (key.BadText? ==> r.Fail? && r.code == key.code)
            && (key.Text? ==>
                  var q := Ws(inp.text, key.pos);
                  Peek(inp.text, q) == ':' ==> r == MemberValueAt(inp, Ws(inp.text, q + 1), count, log + [Key(key.s)]))
  {
    hide MemberValueAt, StringAt;
  }

  lemma ObjectStarts(inp: Input, p: nat, log: seq<Event>)
    requires p <= |inp.text| && Peek(inp.text, p) == '{'
    ensures var q := Ws(inp.text, p + 1);
            ObjectAt(inp, p, log) ==
            if Peek(inp.text, q) == '}' then Done(q + 1, log + [StartObject] + [EndObject(0)])
            else MembersAt(inp, q, 0, log + [StartObject])
  {
    hide MembersAt;
  }

  lemma ArrayStarts(inp: Input, p: nat, log: seq<Event>)
    requires p <= |inp.text| && Peek(inp.text, p) == '['
    ensures var q := Ws(inp.text, p + 1);
            ArrayAt(inp, p, log) ==
            if Peek(inp.text, q) == ']' then Done(q + 1, log + [StartArray] + [EndArray(0)])
            else ElementsAt(inp, q, 0, log + [StartArray])
  {
    hide ElementsAt;
  }

  /** A whole document: one value, with nothing but white space around it. */
  function Document(inp: Input): (r: Outcome)
  {
    var p := Ws(inp.text, 0);
    if Peek(inp.text, p) == NUL then Fail(DocumentEmpty, p, [])
    else
      match ValueAt(inp, p, [])
      case Fail(code, at, ev) => Fail(code, at, ev)
      case Done(q0, ev) =>
        var q := Ws(inp.text, q0);
        if Peek(inp.text, q) != NUL then Fail(DocumentRootNotSingular, q, ev) else Done(q, ev)
  }
}
