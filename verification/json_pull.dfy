/** Token-by-token parsing: every call delivers one event. */
module PullParser {
  import opened JsonText
  import opened JsonScalars
  import opened IterativeParser

  /** The outcome of one call. */
  datatype Call =
    | Returned(c: Config)
    | Failed(code: ErrorCode, at: nat, c: Config)

  /** The step for the token in front of c. */
  function Token(inp: Input, c: Config): (r: Step)
    requires c.pos <= |inp.text| && Inv(c)
    ensures Depth(c.state) <= |c.stack| && r == Transit(inp, c, Target(inp, c))
    ensures r.To? ==> Inv(r.next) && c.pos < r.next.pos <= |inp.text| && !r.next.state.Start?
  {
    TokenKeepsInv(inp, c);
    Transit(inp, c, Target(inp, c))
  }

  lemma TokenKeepsInv(inp: Input, c: Config)
    requires c.pos <= |inp.text| && Inv(c)
    ensures Depth(c.state) <= |c.stack|
    ensures var r := Transit(inp, c, Target(inp, c)); r.To? ==> Inv(r.next) && !r.next.state.Start?
  {
    hide Inv, ScalarAt, StringAt, Target;
    TransitKeepsInv(inp, c);
  }

  /** One call in configuration c: delimiters are passed over, and the first event ends it. */
  function Next(inp: Input, c: Config): (r: Call)
    requires c.pos <= |inp.text| && Inv(c)
    ensures r.Returned? ==> c.pos <= r.c.pos <= |inp.text|
    ensures r.Returned? && !c.state.Finish? ==> Inv(r.c) && c.pos < r.c.pos && !r.c.state.Start?
    ensures r.Returned? && r.c.state.Finish? ==> Peek(inp.text, r.c.pos) == NUL
    decreases |inp.text| - c.pos
  {
    if Peek(inp.text, c.pos) == NUL then
      if c.state.Finish? then Returned(c.(stack := [])) else Failed(RefusalCode(c.state), c.pos, c)
    else
      var c1 := Skip(inp, c);
      SkipKeepsInv(inp, c);
      match Token(inp, c1)
      case Refused => Failed(RefusalCode(c.state), c1.pos, c1)
      case Raised(code, at) => Failed(code, at, c1)
      case To(c2) =>
        if c2.state.Finish? then
          var c3 := Skip(inp, c2);
          if Peek(inp.text, c3.pos) != NUL then Failed(RefusalCode(Finish), c3.pos, c3) else Returned(c3)
        else if IsDelimiter(Target(inp, c1)) then Next(inp, c2)
        else Returned(c2)
  }

  /** A caller that goes on until parsing is complete or a call fails. */
  function Pull(inp: Input, c: Config): Outcome
    requires c.pos <= |inp.text| && Inv(c)
    decreases |inp.text| - c.pos
  {
    if c.state.Finish? then Done(c.pos, c.events)
    else
      match Next(inp, c)
      case Failed(code, at, c1) => Fail(code, at, c1.events)
      case Returned(c1) => Pull(inp, c1)
  }

  function Document(inp: Input): Outcome {
    Pull(inp, Config(Start, [], 0, []))
  }

  /** A call that returns true before completion has delivered exactly one event. */
  lemma {:induction false} OneEventPerCall(inp: Input, c: Config)
    requires c.pos <= |inp.text| && Inv(c) && !c.state.Finish?
    ensures var r := Next(inp, c);
            r.Returned? ==> |r.c.events| == |c.events| + 1 && c.events <= r.c.events
    decreases |inp.text| - c.pos
  {
    hide ScalarAt, StringAt, Inv;
    if Peek(inp.text, c.pos) != NUL {
      var c1 := Skip(inp, c);
      SkipKeepsInv(inp, c);
      TransitKeepsInv(inp, c1);
      var step := Transit(inp, c1, Target(inp, c1));
      if step.To? && !step.next.state.Finish? && IsDelimiter(Target(inp, c1)) {
        OneEventPerCall(inp, step.next);
      }
    }
  }

  /** The text is white space only, and not empty. */
  predicate Blank(inp: Input) {
    Peek(inp.text, 0) != NUL && Peek(inp.text, Ws(inp.text, 0)) == NUL
  }

  /** A caller who pulls the same events and gets the same verdict from configuration c. */
  predicate Agree(pull: Outcome, run: Outcome, exempt: bool) {
    if run.Done? then pull == run
    else pull.Fail? && pull.at == run.at && pull.events == run.events && (pull.code == run.code || exempt)
  }

  /** The token in front of c is handled alike by one call and by the loop. */
  lemma {:induction false} NextRuns(inp: Input, c: Config)
    requires c.pos <= |inp.text| && Inv(c) && !c.state.Finish?
    ensures var exempt := c.state.Start? && Peek(inp.text, c.pos) != NUL && Peek(inp.text, Ws(inp.text, c.pos)) == NUL;
            match Next(inp, c)
            case Failed(code, at, c1) => Agree(Fail(code, at, c1.events), Run(inp, Skip(inp, c)), exempt)
            case Returned(c1) => Run(inp, Skip(inp, c)) == Run(inp, Skip(inp, c1))
    decreases |inp.text| - c.pos
  {
    hide ScalarAt, StringAt, Inv;
    if Peek(inp.text, c.pos) != NUL {
      var c1 := Skip(inp, c);
      SkipKeepsInv(inp, c);
      TransitKeepsInv(inp, c1);
      if Peek(inp.text, c1.pos) == NUL {
        NoScalar(inp, c1.pos);
      } else {
        var step := Transit(inp, c1, Target(inp, c1));
        if step.To? && step.next.state.Finish? {
          FinishedRun(inp, Skip(inp, step.next));
        } else if step.To? && IsDelimiter(Target(inp, c1)) {
          NextRuns(inp, step.next);
        }
      }
    }
  }

  lemma FinishedRun(inp: Input, c: Config)
    requires c.pos <= |inp.text| && Inv(c) && c.state.Finish? && !IsWs(Peek(inp.text, c.pos))
    ensures Skip(inp, c) == c
    ensures Run(inp, c) == if Peek(inp.text, c.pos) == NUL then Done(c.pos, c.events)
                           else Fail(DocumentRootNotSingular, c.pos, c.events)
  {
    if Peek(inp.text, c.pos) != NUL { TransitKeepsInv(inp, c); }
  }

  lemma {:induction false} PullRuns(inp: Input, c: Config)
    requires c.pos <= |inp.text| && Inv(c)
    requires c.state.Finish? ==> Peek(inp.text, c.pos) == NUL
    ensures Agree(Pull(inp, c), Run(inp, Skip(inp, c)),
                  c.state.Start? && Peek(inp.text, c.pos) != NUL && Peek(inp.text, Ws(inp.text, c.pos)) == NUL)
    decreases |inp.text| - c.pos
  {
    hide Run, Next, Inv;
    SkipKeepsInv(inp, c);
    if c.state.Finish? {
      FinishedRun(inp, c);
    } else {
      NextRuns(inp, c);
      if Next(inp, c).Returned? {
        PullRuns(inp, Next(inp, c).c);
      }
    }
  }

  /** Pulling to the end sends the events of one run of the loop and gives its verdict at the same
      offset. The outcomes differ only on white space, which the loop calls an empty document. */
  lemma SameDocument(inp: Input)
    ensures var pull, run := Document(inp), IterativeParser.Document(inp);
            if Blank(inp) then
              var p := Ws(inp.text, 0);
              pull == Fail(ValueInvalid, p, []) && run == Fail(DocumentEmpty, p, [])
            else pull == run
  {
    var c := Config(Start, [], 0, []);
    assert Skip(inp, c) == Initial(inp);
    assert Inv(c) by { assert Inv(Initial(inp)); }
    PullRuns(inp, c);
    if Blank(inp) {
      NoScalar(inp, Ws(inp.text, 0));
      TransitKeepsInv(inp, Initial(inp));
    }
  }
}
