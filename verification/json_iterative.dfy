/** The table-driven parser: a state, a stack of two entries per open container, and one token of
    lookahead. */
module IterativeParser {
  import opened JsonText
  import opened JsonScalars

  datatype State =
    | Finish
    | Error
    | Start
    | ObjectInitial
    | MemberKey
    | MemberValue
    | ObjectFinish
    | ArrayInitial
    | Element
    | ArrayFinish
    | Value
    | ElementDelimiter
    | MemberDelimiter
    | KeyValueDelimiter

  datatype Token =
    | LeftBracket
    | RightBracket
    | LeftCurlyBracket
    | RightCurlyBracket
    | Comma
    | Colon
    | StringToken
    | FalseToken
    | TrueToken
    | NullToken
    | NumberToken

  function Tokenize(c: char): Token {
    if c == '\"' then StringToken
    else if c == ',' then Comma
    else if c == ':' then Colon
    else if c == '[' then LeftBracket
    else if c == ']' then RightBracket
    else if c == 'f' then FalseToken
    else if c == 'n' then NullToken
    else if c == 't' then TrueToken
    else if c == '{' then LeftCurlyBracket
    else if c == '}' then RightCurlyBracket
    else NumberToken
  }

  /** The table of candidate destination states. */
  function Predict(s: State, t: Token): State {
    match s
    case Start =>
      (match t
       case LeftBracket => ArrayInitial
       case LeftCurlyBracket => ObjectInitial
       case RightBracket | RightCurlyBracket | Comma | Colon => Error
       case _ => Value)
    case ObjectInitial | MemberDelimiter =>
      (match t
       case RightCurlyBracket => ObjectFinish
       case StringToken => MemberKey
       case _ => Error)
    case MemberKey => if t == Colon then KeyValueDelimiter else Error
    case MemberValue =>
      (match t
       case RightCurlyBracket => ObjectFinish
       case Comma => MemberDelimiter
       case _ => Error)
    case ArrayInitial | ElementDelimiter =>
      (match t
       case LeftBracket => ArrayInitial
       case RightBracket => ArrayFinish
       case LeftCurlyBracket => ObjectInitial
       case RightCurlyBracket | Comma | Colon => Error
       case _ => Element)
    case Element =>
      (match t
       case RightBracket => ArrayFinish
       case Comma => ElementDelimiter
       case _ => Error)
    case KeyValueDelimiter =>
      (match t
       case LeftBracket => ArrayInitial
       case LeftCurlyBracket => ObjectInitial
       case RightBracket | RightCurlyBracket | Comma | Colon => Error
       case _ => MemberValue)
    case Finish | Error | ObjectFinish | ArrayFinish | Value => Error
  }

  /** States are pushed on the stack as the numbers of their enumeration. */
  function Code(s: State): (n: nat)
    ensures n < 14
  {
    match s
    case Finish => 0
    case Error => 1
    case Start => 2
    case ObjectInitial => 3
    case MemberKey => 4
    case MemberValue => 5
    case ObjectFinish => 6
    case ArrayInitial => 7
    case Element => 8
    case ArrayFinish => 9
    case Value => 10
    case ElementDelimiter => 11
    case MemberDelimiter => 12
    case KeyValueDelimiter => 13
  }

  function Decode(n: nat): State {
    if n == 0 then Finish
    else if n == 1 then Error
    else if n == 2 then Start
    else if n == 3 then ObjectInitial
    else if n == 4 then MemberKey
    else if n == 5 then MemberValue
    else if n == 6 then ObjectFinish
    else if n == 7 then ArrayInitial
    else if n == 8 then Element
    else if n == 9 then ArrayFinish
    else if n == 10 then Value
    else if n == 11 then ElementDelimiter
    else if n == 12 then MemberDelimiter
    else KeyValueDelimiter
  }

  predicate IsDelimiter(s: State) {
    s.ElementDelimiter? || s.MemberDelimiter? || s.KeyValueDelimiter?
  }

  predicate IsComplete(s: State) {
    s.Finish? || s.Error?
  }

  /** The state of the parser between two tokens. */
  datatype Config = Config(state: State, stack: seq<nat>, pos: nat, events: seq<Event>)

  /** The effect of one token: a new configuration, or the error it raised (None when only the
      table refused the token, so that the error code is still to be chosen). */
  datatype Step =
    | To(next: Config)
    | Refused
    | Raised(code: ErrorCode, at: nat)

  function Saved(src: State): State {
    match src
    case ArrayInitial | ElementDelimiter => Element
    case KeyValueDelimiter => MemberValue
    case _ => src
  }

  function Target(inp: Input, c: Config): State {
    Predict(c.state, Tokenize(Peek(inp.text, c.pos)))
  }

  /** The cursor is left just behind the token. The stack is deep enough in every reachable
      configuration. */
  function Transit(inp: Input, c: Config, dst: State): (r: Step)
    requires c.pos <= |inp.text|
    requires dst == Target(inp, c)
    requires Depth(c.state) <= |c.stack|
    ensures r.To? ==> c.pos < r.next.pos <= |inp.text|
  {
    var t := inp.text;
    match dst
    case ObjectInitial =>
      To(Config(dst, c.stack + [Code(Saved(c.state)), 0], c.pos + 1, c.events + [StartObject]))
    case ArrayInitial =>
      To(Config(dst, c.stack + [Code(Saved(c.state)), 0], c.pos + 1, c.events + [StartArray]))
    case MemberKey =>
      (match StringAt(t, c.pos)
       case Text(q, s) => To(Config(dst, c.stack, q, c.events + [Key(s)]))
       case BadText(code, at) => Raised(code, at))
    case KeyValueDelimiter => To(c.(state := dst, pos := c.pos + 1))
    case MemberValue | Element | Value =>
      (match ScalarAt(inp, c.pos)
       case Got(q, e) => To(Config(if dst.Value? then Finish else dst, c.stack, q, c.events + [e]))
       case Bad(code, at) => Raised(code, at))
    case MemberDelimiter | ElementDelimiter =>
      var top := |c.stack| - 1;
      To(Config(dst, c.stack[top := Inc(c.stack[top])], c.pos + 1, c.events))
    case ObjectFinish =>
      if c.state.MemberDelimiter? then Raised(ObjectMissName, c.pos)
      else
        var n := c.stack[|c.stack| - 1];
        var count := if c.state.MemberValue? then Inc(n) else n;
        To(Config(Outer(c.stack), c.stack[..|c.stack| - 2], c.pos + 1, c.events + [EndObject(count)]))
    case ArrayFinish =>
      if c.state.ElementDelimiter? then Raised(ValueInvalid, c.pos)
      else
        var n := c.stack[|c.stack| - 1];
        var count := if c.state.Element? then Inc(n) else n;
        To(Config(Outer(c.stack), c.stack[..|c.stack| - 2], c.pos + 1, c.events + [EndArray(count)]))
    case _ => Refused
  }

  /** Stack entries a state needs: every state inside a container needs the container's two. */
  function Depth(s: State): nat {
    if s.Start? || s.Finish? || s.Error? || s.Value? then 0 else 2
  }

  /** The state to go on in once the innermost container is closed. */
  function Outer(stack: seq<nat>): State
    requires 2 <= |stack|
  {
    var n := Decode(stack[|stack| - 2]);
    if n.Start? then Finish else n
  }

  /** The error reported when a token is refused, or the text ends, in state s. */
  function RefusalCode(s: State): ErrorCode {
    match s
    case Start => DocumentEmpty
    case Finish => DocumentRootNotSingular
    case ObjectInitial | MemberDelimiter => ObjectMissName
    case MemberKey => ObjectMissColon
    case MemberValue => ObjectMissCommaOrCurlyBracket
    case KeyValueDelimiter | ArrayInitial | ElementDelimiter => ValueInvalid
    case _ => ArrayMissCommaOrSquareBracket
  }

  function Skip(inp: Input, c: Config): Config
    requires c.pos <= |inp.text|
  {
    c.(pos := Ws(inp.text, c.pos))
  }

  // ---------- what the events sent so far have left open ----------

  datatype Kind = Root | Arr | Obj

  /** An open container: the values completed in it, and whether a key waits for its value. */
  datatype Frame = Frame(kind: Kind, items: nat, keyed: bool)

  datatype Nesting = Malformed | Open(outer: seq<Frame>, inner: Frame)

  predicate TakesValue(f: Frame) {
    match f.kind
    case Root => f.items == 0
    case Arr => true
    case Obj => f.keyed
  }

  function WithValue(f: Frame): Frame {
    Frame(f.kind, f.items + 1, false)
  }

  function Closed(outer: seq<Frame>): Nesting
    requires outer != []
  {
    var top := |outer| - 1;
    Open(outer[..top], WithValue(outer[top]))
  }

  /** One event, read against the containers that are open. */
  function NestStep(outer: seq<Frame>, f: Frame, e: Event): Nesting {
    match e
    case Key(_) => if f.kind.Obj? && !f.keyed then Open(outer, f.(keyed := true)) else Malformed
    case StartObject => if TakesValue(f) then Open(outer + [f], Frame(Obj, 0, false)) else Malformed
    case StartArray => if TakesValue(f) then Open(outer + [f], Frame(Arr, 0, false)) else Malformed
    case EndObject(n) =>
      if outer != [] && f.kind.Obj? && !f.keyed && n == Wrap(f.items) then Closed(outer) else Malformed
    case EndArray(n) =>
      if outer != [] && f.kind.Arr? && n == Wrap(f.items) then Closed(outer) else Malformed
    case _ => if TakesValue(f) then Open(outer, WithValue(f)) else Malformed
  }

  /** The containers a log of events leaves open; Malformed when the log is not the beginning of
      a document, or when a count is not the number of items the container got. */
  function Nest(events: seq<Event>): Nesting {
    if events == [] then Open([], Frame(Root, 0, false))
    else
      match Nest(events[..|events| - 1])
      case Malformed => Malformed
      case Open(outer, f) => NestStep(outer, f, events[|events| - 1])
  }

  lemma NestAppend(events: seq<Event>, e: Event)
    ensures Nest(events + [e]) ==
            match Nest(events) case Malformed => Malformed case Open(outer, f) => NestStep(outer, f, e)
  {
    assert (events + [e])[..|events + [e]| - 1] == events;
  }

  // ---------- the invariant of the parser ----------

  /** The state that is saved when a container is opened inside one of kind k. */
  function Entered(k: Kind): State {
    match k
    case Root => Start
    case Arr => Element
    case Obj => MemberValue
  }

  /** The stack for the open containers, when the innermost has `count` delimiters behind it: for
      every container the state saved on entry and the number of items passed in it. */
  function StackOf(outer: seq<Frame>, count: nat): (stack: seq<nat>)
    ensures |stack| == 2 * |outer|
  {
    if outer == [] then []
    else
      var top := |outer| - 1;
      StackOf(outer[..top], Wrap(outer[top].items)) + [Code(Entered(outer[top].kind)), count]
  }

  /** What the current state says about the innermost container. */
  predicate StateFits(s: State, f: Frame) {
    match s
    case Start => f == Frame(Root, 0, false)
    case Finish => f == Frame(Root, 1, false)
    case ArrayInitial => f == Frame(Arr, 0, false)
    case Element | ElementDelimiter => f.kind.Arr? && 0 < f.items && !f.keyed
    case ObjectInitial => f == Frame(Obj, 0, false)
    case MemberKey | KeyValueDelimiter => f.kind.Obj? && f.keyed
    case MemberValue | MemberDelimiter => f.kind.Obj? && 0 < f.items && !f.keyed
    case _ => false
  }

  /** Items of the innermost container with a delimiter behind them. */
  function Passed(s: State, f: Frame): nat {
    if (s.Element? || s.MemberValue?) && 0 < f.items then f.items - 1 else f.items
  }

  predicate OuterFits(outer: seq<Frame>) {
    forall i | 0 <= i < |outer| :: TakesValue(outer[i]) && (outer[i].kind.Root? <==> i == 0)
  }

  /** The state and the stack tell what is open: the containers in `outer` and, innermost, f. */
  predicate Fits(s: State, stack: seq<nat>, outer: seq<Frame>, f: Frame) {
    && OuterFits(outer)
    && StateFits(s, f)
    && (f.kind.Root? <==> outer == [])
    && stack == StackOf(outer, Wrap(Passed(s, f)))
  }

  predicate Inv(c: Config) {
    Nest(c.events).Open? && Fits(c.state, c.stack, Nest(c.events).outer, Nest(c.events).inner)
  }

  function Initial(inp: Input): (c: Config)
    ensures c.pos <= |inp.text| && Inv(c)
  {
    Config(Start, [], Ws(inp.text, 0), [])
  }

  lemma {:induction false} StackOfShape(outer: seq<Frame>, count: nat)
    requires OuterFits(outer)
    ensures forall i | 0 <= i < |outer| ::
              var s := StackOf(outer, count)[2 * i];
              if i == 0 then s == Code(Start) else s == Code(Element) || s == Code(MemberValue)
  {
    if outer != [] {
      var top := |outer| - 1;
      StackOfShape(outer[..top], Wrap(outer[top].items));
      assert forall i | 0 <= i < top ::
          StackOf(outer, count)[2 * i] == StackOf(outer[..top], Wrap(outer[top].items))[2 * i];
    }
  }

  /** What the invariant says about the stack: two entries per open container, the bottom one
      saved from Start and the others from Element or MemberValue, and nothing left in Finish. */
  lemma StackShape(c: Config)
    requires Inv(c)
    ensures Depth(c.state) <= |c.stack| == 2 * |Nest(c.events).outer|
    ensures forall i | 0 <= i < |Nest(c.events).outer| ::
              if i == 0 then c.stack[2 * i] == Code(Start)
              else c.stack[2 * i] == Code(Element) || c.stack[2 * i] == Code(MemberValue)
    ensures c.state.Finish? ==> c.stack == []
  {
    StackOfShape(Nest(c.events).outer, Wrap(Passed(c.state, Nest(c.events).inner)));
  }

  lemma OpenFits(s: State, stack: seq<nat>, outer: seq<Frame>, f: Frame, s': State, f': Frame)
    requires Fits(s, stack, outer, f)
    requires s.Start? || s.ArrayInitial? || s.ElementDelimiter? || s.KeyValueDelimiter?
    requires (s'.ObjectInitial? && f' == Frame(Obj, 0, false)) || (s'.ArrayInitial? && f' == Frame(Arr, 0, false))
    ensures TakesValue(f)
    ensures Fits(s', stack + [Code(Saved(s)), 0], outer + [f], f')
  {
    assert (outer + [f])[..|outer|] == outer;
    assert Saved(s) == Entered(f.kind);
    assert Passed(s, f) == f.items && Wrap(Passed(s', f')) == 0;
    assert StackOf(outer + [f], 0) == StackOf(outer, Wrap(f.items)) + [Code(Entered(f.kind)), 0];
  }

  lemma CloseFits(s: State, stack: seq<nat>, outer: seq<Frame>, f: Frame)
    requires Fits(s, stack, outer, f)
    requires s.MemberValue? || s.ObjectInitial? || s.Element? || s.ArrayInitial?
    ensures 2 <= |stack| && outer != []
    ensures var n := stack[|stack| - 1];
            Wrap(f.items) == if s.MemberValue? || s.Element? then Inc(n) else n
    ensures var g := outer[|outer| - 1];
            Fits(Outer(stack), stack[..|stack| - 2], outer[..|outer| - 1], WithValue(g))
  {
    if 0 < f.items { IncWrap(f.items - 1); }
    var top := |outer| - 1;
    var g := outer[top];
    var below := StackOf(outer[..top], Wrap(g.items));
    assert stack == below + [Code(Entered(g.kind)), Wrap(Passed(s, f))];
    assert stack[..|stack| - 2] == below;
    assert Decode(stack[|stack| - 2]) == Entered(g.kind);
  }

  lemma DelimiterFits(s: State, stack: seq<nat>, outer: seq<Frame>, f: Frame, s': State)
    requires Fits(s, stack, outer, f)
    requires (s.Element? && s'.ElementDelimiter?) || (s.MemberValue? && s'.MemberDelimiter?)
    ensures 2 <= |stack|
    ensures Fits(s', stack[|stack| - 1 := Inc(stack[|stack| - 1])], outer, f)
  {
    IncWrap(f.items - 1);
    var top := |outer| - 1;
    var below := StackOf(outer[..top], Wrap(outer[top].items));
    assert stack == below + [Code(Entered(outer[top].kind)), Wrap(f.items - 1)];
    assert StackOf(outer, Wrap(f.items)) == below + [Code(Entered(outer[top].kind)), Wrap(f.items)];
  }

  lemma EventKeepsInv(c: Config, e: Event, c': Config)
    requires Inv(c) && c'.events == c.events + [e]
    requires var n := NestStep(Nest(c.events).outer, Nest(c.events).inner, e);
             n.Open? && Fits(c'.state, c'.stack, n.outer, n.inner)
    ensures Inv(c')
  {
    NestAppend(c.events, e);
  }

  lemma ContainerKeepsInv(inp: Input, c: Config)
    requires Inv(c) && c.pos <= |inp.text| && Depth(c.state) <= |c.stack|
    requires Target(inp, c) in {ObjectInitial, ArrayInitial, ObjectFinish, ArrayFinish}
    ensures var r := Transit(inp, c, Target(inp, c)); r.To? ==> Inv(r.next)
  {
    hide ScalarAt, StringAt, StackOf, Nest, OuterFits, Code, Decode;
    var s, outer, f := c.state, Nest(c.events).outer, Nest(c.events).inner;
    var dst := Target(inp, c);
    var r := Transit(inp, c, dst);
    if dst.ObjectInitial? {
      OpenFits(s, c.stack, outer, f, dst, Frame(Obj, 0, false));
      EventKeepsInv(c, StartObject, r.next);
    } else if dst.ArrayInitial? {
      OpenFits(s, c.stack, outer, f, dst, Frame(Arr, 0, false));
      EventKeepsInv(c, StartArray, r.next);
    } else if r.To? {
      CloseFits(s, c.stack, outer, f);
      EventKeepsInv(c, if dst.ObjectFinish? then EndObject(Wrap(f.items)) else EndArray(Wrap(f.items)), r.next);
    }
  }

  lemma SameLevelKeepsInv(inp: Input, c: Config)
    requires Inv(c) && c.pos <= |inp.text| && Depth(c.state) <= |c.stack|
    requires Target(inp, c) !in {ObjectInitial, ArrayInitial, ObjectFinish, ArrayFinish}
    ensures var r := Transit(inp, c, Target(inp, c)); r.To? ==> Inv(r.next)
  {
    hide ScalarAt, StringAt;
    var s, outer, f := c.state, Nest(c.events).outer, Nest(c.events).inner;
    var dst := Target(inp, c);
    var r := Transit(inp, c, dst);
    if r.To? {
      if dst.MemberDelimiter? || dst.ElementDelimiter? {
        DelimiterFits(s, c.stack, outer, f, dst);
      } else if dst.MemberKey? {
        EventKeepsInv(c, Key(StringAt(inp.text, c.pos).s), r.next);
      } else if !dst.KeyValueDelimiter? {
        EventKeepsInv(c, ScalarAt(inp, c.pos).event, r.next);
      }
    }
  }

  /** Every step that is not an error keeps the invariant. */
  lemma TransitKeepsInv(inp: Input, c: Config)
    requires Inv(c) && c.pos <= |inp.text|
    ensures Depth(c.state) <= |c.stack|
    ensures var r := Transit(inp, c, Target(inp, c)); r.To? ==> Inv(r.next)
  {
    StackShape(c);
    if Target(inp, c) in {ObjectInitial, ArrayInitial, ObjectFinish, ArrayFinish} {
      ContainerKeepsInv(inp, c);
    } else {
      SameLevelKeepsInv(inp, c);
    }
  }

  lemma SkipKeepsInv(inp: Input, c: Config)
    requires c.pos <= |inp.text| && Inv(c)
    ensures Inv(Skip(inp, c))
  {}

  lemma EmptyInv(c: Config)
    requires c.state.Start? && c.stack == [] && c.events == []
    ensures Inv(c)
  {}

  lemma InvIsNoError(c: Config)
    requires Inv(c)
    ensures !c.state.Error?
  {}

  // ---------- the main loop ----------

  /** The loop from configuration c on, with the cursor behind white space. */
  function Run(inp: Input, c: Config): (r: Outcome)
    requires c.pos <= |inp.text| && Inv(c)
    decreases |inp.text| - c.pos
  {
    if Peek(inp.text, c.pos) == NUL then
      if c.state.Finish? then Done(c.pos, c.events) else Fail(RefusalCode(c.state), c.pos, c.events)
    else
      TransitKeepsInv(inp, c);
      match Transit(inp, c, Target(inp, c))
      case To(next) => Run(inp, Skip(inp, next))
      case Refused => Fail(RefusalCode(c.state), c.pos, c.events)
      case Raised(code, at) => Fail(code, at, c.events)
  }

  function Document(inp: Input): Outcome {
    Run(inp, Initial(inp))
  }
}
