/** The table-driven parser simulates the recursive one. */
module ParserEquivalence {
  import opened JsonText
  import opened JsonScalars
  import opened IterativeParser
  import Recursive = RecursiveParser

  predicate ExpectsValue(s: State) {
    s.Start? || s.ArrayInitial? || s.ElementDelimiter? || s.KeyValueDelimiter?
  }

  /** The state once the expected value is complete. */
  function Behind(s: State): State
    requires ExpectsValue(s)
  {
    if s.Start? then Finish else if s.KeyValueDelimiter? then MemberValue else Element
  }

  /** Both report the same failure. The one exception is the code for a root that begins with a
      closing bracket, a comma or a colon. */
  predicate SameFailure(r: Outcome, i: Outcome, exempt: bool)
    requires r.Fail?
  {
    i.Fail? && i.at == r.at && i.events == r.events && (i.code == r.code || exempt)
  }

  /** The result of a simulated piece: on success the parser has got to configuration `to`. */
  predicate Simulates(inp: Input, c: Config, r: Outcome, to: Config, exempt: bool)
    requires c.pos <= |inp.text| && Inv(c)
    requires r.Done? ==> to.pos == r.pos && to.events == r.events && r.pos <= |inp.text|
  {
    if r.Done? then Inv(to) && Run(inp, c) == Run(inp, Skip(inp, to))
    else SameFailure(r, Run(inp, c), exempt)
  }

  function After(c: Config, s: State, stack: seq<nat>, r: Outcome): Config {
    if r.Done? then Config(s, stack, r.pos, r.events) else c
  }

  /** One turn of the loop. */
  lemma RunStep(inp: Input, c: Config)
    requires c.pos <= |inp.text| && Inv(c) && Peek(inp.text, c.pos) != NUL
    ensures Depth(c.state) <= |c.stack|
    ensures var r := Transit(inp, c, Target(inp, c));
            && (r.To? ==> Inv(r.next) && Inv(Skip(inp, r.next)) && Run(inp, c) == Run(inp, Skip(inp, r.next)))
            && (r.Refused? ==> Run(inp, c) == Fail(RefusalCode(c.state), c.pos, c.events))
            && (r.Raised? ==> Run(inp, c) == Fail(r.code, r.at, c.events))
  {
    hide Inv, Transit, Target, RefusalCode;
    TransitKeepsInv(inp, c);
    if Transit(inp, c, Target(inp, c)).To? { SkipKeepsInv(inp, Transit(inp, c, Target(inp, c)).next); }
  }

  lemma RunEnds(inp: Input, c: Config)
    requires c.pos <= |inp.text| && Inv(c) && Peek(inp.text, c.pos) == NUL
    ensures Run(inp, c) == if c.state.Finish? then Done(c.pos, c.events) else Fail(RefusalCode(c.state), c.pos, c.events)
  {
    hide Inv;
  }

  lemma {:induction false} ValueSimulated(inp: Input, c: Config)
    requires c.pos <= |inp.text| && Inv(c) && ExpectsValue(c.state) && !IsWs(Peek(inp.text, c.pos))
    requires c.state.Start? ==> Peek(inp.text, c.pos) != NUL
    requires c.state.ArrayInitial? ==> Peek(inp.text, c.pos) != ']'
    ensures var r := Recursive.ValueAt(inp, c.pos, c.events);
            Simulates(inp, c, r, After(c, Behind(c.state), c.stack, r),
                      c.state.Start? && StrayToken(Peek(inp.text, c.pos)))
    decreases |inp.text| - c.pos, 2
  {
    hide Inv, Run, ScalarAt, Recursive.MembersAt, Recursive.ElementsAt;
    var ch := Peek(inp.text, c.pos);
    if ch == '{' || ch == '[' {
      OpenSimulated(inp, c);
      var c1 := Opened(inp, c);
      if ch == '{' {
        if Peek(inp.text, c1.pos) == '}' { EmptySimulated(inp, c1, c.stack, Saved(c.state)); }
        else { MembersSimulated(inp, c1, c.stack, Saved(c.state), 0); }
      } else {
        if Peek(inp.text, c1.pos) == ']' { EmptySimulated(inp, c1, c.stack, Saved(c.state)); }
        else { ElementsSimulated(inp, c1, c.stack, Saved(c.state), 0); }
      }
      assert Outer(c1.stack) == Behind(c.state);
    } else {
      ScalarSimulated(inp, c);
    }
  }

  /** A value that is not a container, or a character no value begins with. */
  lemma ScalarSimulated(inp: Input, c: Config)
    requires c.pos <= |inp.text| && Inv(c) && ExpectsValue(c.state)
    requires Peek(inp.text, c.pos) != '{' && Peek(inp.text, c.pos) != '['
    requires c.state.Start? ==> Peek(inp.text, c.pos) != NUL
    requires c.state.ArrayInitial? ==> Peek(inp.text, c.pos) != ']'
    ensures match ScalarAt(inp, c.pos)
            case Got(q, e) =>
              var to := Config(Behind(c.state), c.stack, q, c.events + [e]);
              Inv(to) && Run(inp, c) == Run(inp, Skip(inp, to))
            case Bad(code, at) =>
              SameFailure(Fail(code, at, c.events), Run(inp, c), c.state.Start? && StrayToken(Peek(inp.text, c.pos)))
  {
    hide ScalarAt, Inv, Run;
    if Peek(inp.text, c.pos) == NUL || StrayToken(Peek(inp.text, c.pos)) { NoScalar(inp, c.pos); }
    if Peek(inp.text, c.pos) != NUL { RunStep(inp, c); } else { RunEnds(inp, c); }
  }

  /** The configuration behind an opening bracket and white space. */
  function Opened(inp: Input, c: Config): Config
    requires c.pos < |inp.text|
  {
    var brace := Peek(inp.text, c.pos) == '{';
    Config(if brace then ObjectInitial else ArrayInitial, c.stack + [Code(Saved(c.state)), 0],
           Ws(inp.text, c.pos + 1), c.events + [if brace then StartObject else StartArray])
  }

  /** The step over an opening bracket. */
  lemma OpenSimulated(inp: Input, c: Config)
    requires c.pos <= |inp.text| && Inv(c) && ExpectsValue(c.state)
    requires Peek(inp.text, c.pos) == '{' || Peek(inp.text, c.pos) == '['
    ensures c.pos < |inp.text|
    ensures var c1 := Opened(inp, c); Inv(c1) && Run(inp, c) == Run(inp, c1) && Outer(c1.stack) == Behind(c.state)
  {
    hide Inv, Run, ScalarAt, StringAt;
    RunStep(inp, c);
    assert Opened(inp, c) == Skip(inp, Transit(inp, c, Target(inp, c)).next);
  }

  /** The step over the closing bracket of an empty container. */
  lemma EmptySimulated(inp: Input, c: Config, stack: seq<nat>, saved: State)
    requires c.pos <= |inp.text| && Inv(c) && (c.state.ObjectInitial? || c.state.ArrayInitial?)
    requires c.stack == stack + [Code(saved), 0]
    requires Peek(inp.text, c.pos) == if c.state.ObjectInitial? then '}' else ']'
    ensures var closed := Config(Outer(c.stack), stack, c.pos + 1,
                                 c.events + [if c.state.ObjectInitial? then EndObject(0) else EndArray(0)]);
            c.pos < |inp.text| && Inv(closed) && Run(inp, c) == Run(inp, Skip(inp, closed))
  {
    hide Inv, Run, ScalarAt, StringAt;
    RunStep(inp, c);
    assert c.stack[..|c.stack| - 2] == stack;
  }

  /** The step behind an item of a container: past a delimiter, out of the container, or an error. */
  lemma BehindItem(inp: Input, c: Config, stack: seq<nat>, saved: State, count: nat)
    requires c.pos <= |inp.text| && Inv(c) && (c.state.Element? || c.state.MemberValue?)
    requires c.stack == stack + [Code(saved), count]
    ensures var ch := Peek(inp.text, c.pos);
            var passed := Config(if c.state.Element? then ElementDelimiter else MemberDelimiter,
                                 stack + [Code(saved), Inc(count)], c.pos + 1, c.events);
            var closed := Config(Outer(c.stack), stack, c.pos + 1,
                                 c.events + [if c.state.Element? then EndArray(Inc(count)) else EndObject(Inc(count))]);
            if ch == ',' then c.pos < |inp.text| && Inv(passed) && Run(inp, c) == Run(inp, Skip(inp, passed))
            else if ch == (if c.state.Element? then ']' else '}') then
              c.pos < |inp.text| && Inv(closed) && Run(inp, c) == Run(inp, Skip(inp, closed))
            else Run(inp, c) == Fail(RefusalCode(c.state), c.pos, c.events)
  {
    hide Inv, Run, ScalarAt, StringAt;
    var ch := Peek(inp.text, c.pos);
    if ch == NUL {
      RunEnds(inp, c);
    } else {
      RunStep(inp, c);
      var top := |c.stack| - 1;
      assert c.stack[top := Inc(c.stack[top])] == stack + [Code(saved), Inc(count)];
      assert c.stack[..|c.stack| - 2] == stack;
    }
  }

  lemma {:induction false} ElementsSimulated(inp: Input, c: Config, stack: seq<nat>, saved: State, count: nat)
    requires c.pos <= |inp.text| && Inv(c) && !IsWs(Peek(inp.text, c.pos))
    requires c.state.ElementDelimiter? || (c.state.ArrayInitial? && Peek(inp.text, c.pos) != ']')
    requires c.stack == stack + [Code(saved), count]
    ensures var r := Recursive.ElementsAt(inp, c.pos, count, c.events);
            Simulates(inp, c, r, After(c, Outer(c.stack), stack, r), false)
    decreases |inp.text| - c.pos, 3
  {
    hide Inv, Run, Recursive.ValueAt;
    ValueSimulated(inp, c);
    var v := Recursive.ValueAt(inp, c.pos, c.events);
    if v.Done? {
      var c1 := Skip(inp, Config(Element, c.stack, v.pos, v.events));
      SkipKeepsInv(inp, Config(Element, c.stack, v.pos, v.events));
      BehindItem(inp, c1, stack, saved, count);
      if Peek(inp.text, c1.pos) == ',' {
        var c2 := Config(ElementDelimiter, stack + [Code(saved), Inc(count)], c1.pos + 1, v.events);
        SkipKeepsInv(inp, c2);
        ElementsSimulated(inp, Skip(inp, c2), stack, saved, Inc(count));
      }
    }
  }

  lemma {:induction false} MembersSimulated(inp: Input, c: Config, stack: seq<nat>, saved: State, count: nat)
    requires c.pos <= |inp.text| && Inv(c) && !IsWs(Peek(inp.text, c.pos))
    requires c.state.MemberDelimiter? || (c.state.ObjectInitial? && Peek(inp.text, c.pos) != '}')
    requires c.stack == stack + [Code(saved), count]
    ensures var r := Recursive.MembersAt(inp, c.pos, count, c.events);
            Simulates(inp, c, r, After(c, Outer(c.stack), stack, r), false)
    decreases |inp.text| - c.pos, 0
  {
    hide Inv, Run, Recursive.MemberValueAt, StringAt;
    var t := inp.text;
    KeySimulated(inp, c);
    if Peek(t, c.pos) == '\"' && StringAt(t, c.pos).Text? {
      var key := StringAt(t, c.pos);
      var q := Ws(t, key.pos);
      if Peek(t, q) == ':' {
        var c2 := Skip(inp, Config(KeyValueDelimiter, c.stack, q + 1, c.events + [Key(key.s)]));
        MemberValueSimulated(inp, c2, stack, saved, count);
      }
    }
  }

  lemma {:induction false} MemberValueSimulated(inp: Input, c: Config, stack: seq<nat>, saved: State, count: nat)
    requires c.pos <= |inp.text| && Inv(c) && c.state.KeyValueDelimiter? && !IsWs(Peek(inp.text, c.pos))
    requires c.stack == stack + [Code(saved), count]
    ensures var r := Recursive.MemberValueAt(inp, c.pos, count, c.events);
            Simulates(inp, c, r, After(c, Outer(c.stack), stack, r), false)
    decreases |inp.text| - c.pos, 3
  {
    hide Inv, Run, Recursive.ValueAt, Recursive.MembersAt;
    ValueSimulated(inp, c);
    var v := Recursive.ValueAt(inp, c.pos, c.events);
    if v.Done? {
      var c1 := Skip(inp, Config(MemberValue, c.stack, v.pos, v.events));
      SkipKeepsInv(inp, Config(MemberValue, c.stack, v.pos, v.events));
      BehindItem(inp, c1, stack, saved, count);
      if Peek(inp.text, c1.pos) == ',' {
        var c2 := Config(MemberDelimiter, stack + [Code(saved), Inc(count)], c1.pos + 1, v.events);
        SkipKeepsInv(inp, c2);
        MembersSimulated(inp, Skip(inp, c2), stack, saved, Inc(count));
      }
    }
  }

  /** The steps over a member's key and the colon behind it. */
  lemma KeySimulated(inp: Input, c: Config)
    requires c.pos <= |inp.text| && Inv(c) && !IsWs(Peek(inp.text, c.pos))
    requires c.state.MemberDelimiter? || (c.state.ObjectInitial? && Peek(inp.text, c.pos) != '}')
    ensures var t := inp.text;
            if Peek(t, c.pos) != '\"' then Run(inp, c) == Fail(ObjectMissName, c.pos, c.events)
            else
              match StringAt(t, c.pos)
              case BadText(code, at) => Run(inp, c) == Fail(code, at, c.events)
              case Text(p1, s) =>
                var q := Ws(t, p1);
                if Peek(t, q) != ':' then Run(inp, c) == Fail(ObjectMissColon, q, c.events + [Key(s)])
                else
                  var c2 := Skip(inp, Config(KeyValueDelimiter, c.stack, q + 1, c.events + [Key(s)]));
                  Inv(c2) && Run(inp, c) == Run(inp, c2)
  {
    hide Inv, StringAt, ScalarAt, Run;
    var t := inp.text;
    if Peek(t, c.pos) == NUL {
      RunEnds(inp, c);
    } else {
      RunStep(inp, c);
      if Peek(t, c.pos) == '\"' && StringAt(t, c.pos).Text? {
        var next := Config(MemberKey, c.stack, StringAt(t, c.pos).pos, c.events + [Key(StringAt(t, c.pos).s)]);
        SkipKeepsInv(inp, next);
        var c1 := Skip(inp, next);
        ColonSimulated(inp, c1);
      }
    }
  }

  lemma ColonSimulated(inp: Input, c: Config)
    requires c.pos <= |inp.text| && Inv(c) && c.state.MemberKey?
    ensures if Peek(inp.text, c.pos) != ':' then Run(inp, c) == Fail(ObjectMissColon, c.pos, c.events)
            else
              var c' := Skip(inp, Config(KeyValueDelimiter, c.stack, c.pos + 1, c.events));
              Inv(c') && Run(inp, c) == Run(inp, c')
  {
    hide ScalarAt, StringAt, Inv;
    if Peek(inp.text, c.pos) != NUL {
      TransitKeepsInv(inp, c);
      if Peek(inp.text, c.pos) == ':' { SkipKeepsInv(inp, Config(KeyValueDelimiter, c.stack, c.pos + 1, c.events)); }
    }
  }

  /** On every input the two parsers send the same events and give the same verdict, at the same
      offset; on failure the error code is the same too, unless the root begins with a closing
      bracket, a comma or a colon. */
  lemma SameDocument(inp: Input)
    ensures var r, i := Recursive.Document(inp), IterativeParser.Document(inp);
            && i.events == r.events
            && (i.Done? <==> r.Done?)
            && (r.Done? ==> i == r)
            && (r.Fail? ==> i.at == r.at)
  {
    SameDocumentCode(inp);
  }

  /** The outcomes differ in exactly one case: the first character of the document is a closing
      bracket, a comma or a colon. Then the recursive parser calls the value invalid where the
      table-driven one calls the document empty. */
  lemma SameDocumentCode(inp: Input)
    ensures var r, i := Recursive.Document(inp), IterativeParser.Document(inp);
            if StrayToken(Peek(inp.text, Ws(inp.text, 0))) then
              var p := Ws(inp.text, 0);
              r == Fail(ValueInvalid, p, []) && i == Fail(DocumentEmpty, p, [])
            else i == r
  {
    var c := Initial(inp);
    if Peek(inp.text, c.pos) != NUL {
      ValueSimulated(inp, c);
      var v := Recursive.ValueAt(inp, c.pos, []);
      if StrayToken(Peek(inp.text, c.pos)) {
        TransitKeepsInv(inp, c);
      } else if v.Done? {
        var c1 := Skip(inp, Config(Finish, [], v.pos, v.events));
        if Peek(inp.text, c1.pos) != NUL {
          TransitKeepsInv(inp, c1);
        }
      }
    }
  }
}
