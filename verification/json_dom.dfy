/** The document object: the handlers work on its stack, and a parse moves the one value left
    there into the document. */
module JsonDom {
  import opened JsonText
  import opened JsonValue
  import opened JsonDocument
  import Recursive = RecursiveParser
  import JsonReader

  class Document {
    var stack: seq<Value>
    var root: Value

    constructor ()
      ensures stack == [] && root == VNull
    {
      stack, root := [], VNull;
    }

    method Push(v: Value)
      modifies this`stack
      ensures stack == old(stack) + [v]
    {
      stack := stack + [v];
    }

    /** The members are the topmost names and values; the object below them takes them in. */
    method EndObject(memberCount: nat)
      requires 2 * memberCount < |stack| && NamesAreStrings(stack[|stack| - 2 * memberCount..])
      modifies this`stack
      ensures Values(stack) == Apply(old(stack), Event.EndObject(memberCount))
    {
      var members := stack[|stack| - 2 * memberCount..];
      stack := stack[..|stack| - 2 * memberCount];
      stack := stack[|stack| - 1 := VObject(ToMembers(members))];
      assert stack == stack[..|stack| - 1] + [VObject(ToMembers(members))];
      assert stack[..|stack| - 1] == old(stack)[..|stack| - 1];
    }

    method EndArray(elementCount: nat)
      requires elementCount < |stack|
      modifies this`stack
      ensures Values(stack) == Apply(old(stack), Event.EndArray(elementCount))
    {
      var elements := stack[|stack| - elementCount..];
      stack := stack[..|stack| - elementCount];
      stack := stack[|stack| - 1 := VArray(elements)];
      assert stack == stack[..|stack| - 1] + [VArray(elements)];
      assert stack[..|stack| - 1] == old(stack)[..|stack| - 1];
    }

    method Handle(e: Event)
      requires InRange(e) && Apply(stack, e).Values?
      modifies this`stack
      ensures Values(stack) == Apply(old(stack), e)
    {
      match e {
        case Null => Push(VNull);
        case Bool(b) => Push(VBool(b));
        case Int(i) => Push(OfInt(i));
        case Uint(i) => Push(OfUint(i));
        case Int64(i) => Push(OfInt64(i));
        case Uint64(i) => Push(OfUint64(i));
        case Double(d) => Push(VDouble(d));
        case String(s) => Push(VString(s));
        case Key(s) => Push(VString(s));
        case StartObject => Push(VObject([]));
        case StartArray => Push(VArray([]));
        case EndObject(n) => EndObject(n);
        case EndArray(n) => EndArray(n);
      }
    }

    /** All events of a log. Every handler call is within the bounds of the stack. */
    method HandleAll(log: seq<Event>)
      requires stack == [] && AllInRange(log) && Replay(log).Values?
      modifies this`stack
      ensures Builds(log, stack)
    {
      for k := 0 to |log|
        invariant Builds(log[..k], stack)
      {
        ReplayPrefix(log, k + 1);
        assert log[..k + 1] == log[..k] + [log[k]];
        assert log[..k + 1][..k] == log[..k];
        Handle(log[k]);
        BuildsAppend(log[..k], Replay(log[..k]).vs, log[k], stack);
      }
      assert log[..|log|] == log;
    }

    /** Parsing into the document: on success the document is the tree of the text, on failure it
        keeps its value. Either way the stack is cleared. */
    method ParseStream(inp: Input) returns (r: JsonReader.ParseResult)
      requires stack == [] && |inp.text| < SIZE_LIMIT && JsonReader.ShortFractions(inp.text)
      modifies this
      ensures stack == []
      ensures match Recursive.Document(inp)
              case Done(_, log) => r.NoError? && Proper(root) && NarrowAll(log) == Accept(root, [])
              case Fail(code, at, _) => r == JsonReader.ParseError(code, at) && root == old(root)
    {
      var reader := new JsonReader.Reader(inp);
      reader.Parse();
      ghost var v := DocumentMirrors(inp);
      HandleAll(reader.events);
      r := reader.error;
      if r.NoError? {
        assert |stack| == 1;
        root := stack[0];
      }
      stack := [];
    }

    /** A tree that sends its events leaves one value, which becomes the document. */
    method Populate(v: Value)
      requires stack == [] && Proper(v)
      modifies this
      ensures stack == [] && root == v
    {
      AcceptValue(v);
      root := stack[0];
      stack := [];
    }

    /** Sends a tree to this document, as copying a value does. */
    method AcceptValue(v: Value)
      requires Proper(v)
      modifies this`stack
      ensures stack == old(stack) + [v]
      decreases v, 1
    {
      hide Flat;
      match v {
        case VNull => Handle(Null);
        case VBool(b) => Handle(Bool(b));
        case VNumber(n, flags) =>
          NumberKept(n, flags);
          Handle(NumberEvent(n, flags));
        case VDouble(d) => Handle(Double(d));
        case VString(s) => Handle(String(s));
        case VArray(elements) =>
          Push(VArray([]));
          AcceptElements(elements);
          assert stack[|old(stack)| + 1..] == elements && stack[..|old(stack)|] == old(stack);
          EndArray(|elements|);
        case VObject(members) =>
          Push(VObject([]));
          AcceptMembers(members);
          ToMembersFlat(members);
          assert stack[|old(stack)| + 1..] == Flat(members) && stack[..|old(stack)|] == old(stack);
          EndObject(|members|);
      }
    }

    method AcceptElements(elements: seq<Value>)
      requires forall e | e in elements :: Proper(e)
      modifies this`stack
      ensures stack == old(stack) + elements
      decreases elements, 0
    {
      var i := 0;
      while i < |elements|
        invariant 0 <= i <= |elements| && stack == old(stack) + elements[..i]
      {
        AcceptValue(elements[i]);
        assert elements[..i + 1] == elements[..i] + [elements[i]];
        i := i + 1;
      }
      assert elements[..i] == elements;
    }

    method AcceptMembers(members: seq<Member>)
      requires forall m | m in members :: Proper(m.value)
      modifies this`stack
      ensures stack == old(stack) + Flat(members)
      decreases members, 0
    {
      hide Proper, Flat;
      var i := 0;
      assert Flat(members[..0]) == [];
      while i < |members|
        invariant 0 <= i <= |members| && stack == old(stack) + Flat(members[..i])
      {
        Push(VString(members[i].name));
        AcceptValue(members[i].value);
        FlatAppend(members[..i], members[i]);
        assert members[..i + 1] == members[..i] + [members[i]];
        i := i + 1;
      }
      assert members[..i] == members;
    }
  }

  lemma {:induction false} ReplayPrefix(log: seq<Event>, k: nat)
    requires k <= |log| && AllInRange(log) && Replay(log).Values?
    ensures AllInRange(log[..k]) && Replay(log[..k]).Values?
    decreases |log|
  {
    if k < |log| {
      ReplayPrefix(log[..|log| - 1], k);
      assert log[..|log| - 1][..k] == log[..k];
    } else {
      assert log[..k] == log;
    }
  }
}
