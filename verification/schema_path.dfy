/** The path stack of the schema validator: a text of escaped tokens and a context per open value. */
module SchemaPath {
  import opened JsonText
  import opened JsonValue
  import opened JsonPointer
  import opened Decimals

  /** What the validator knows about an open value: inside an array, the index of the next element. */
  datatype Context = Context(inArray: bool, arrayElementIndex: nat)

  datatype State = State(path: string, contexts: seq<Context>)

  const START := State("", [])

  // ---------- steps ----------

  /** The path with a name behind it. */
  function Extend(path: string, name: string): string {
    var r := NameText(name, 0, false, path + "/");
    if r.Printed? then r.text else path
  }

  function Begun(s: State): (r: State)
    ensures r.contexts != []
  {
    if s.contexts == [] then State(s.path, [Context(false, 0)])
    else
      var last := |s.contexts| - 1;
      var top := s.contexts[last];
      if top.inArray then
        State(s.path + "/" + Decimal(top.arrayElementIndex),
              s.contexts[last := Context(true, Inc(top.arrayElementIndex))] + [Context(false, 0)])
      else State(s.path, s.contexts + [Context(false, 0)])
  }

  /** The path without what follows its last '/', and without that '/'. */
  function CutLast(path: string): string {
    if path == "" then ""
    else if path[|path| - 1] == '/' then path[..|path| - 1]
    else CutLast(path[..|path| - 1])
  }

  function Ended(s: State): State {
    if s.contexts == [] then s
    else State(CutLast(s.path), s.contexts[..|s.contexts| - 1])
  }

  /** The top context, once its value is known to be an array. */
  function InArray(s: State): State {
    if s.contexts == [] then s else s.(contexts := s.contexts[|s.contexts| - 1 := Context(true, 0)])
  }

  /** The state while an event is handled, when the schema keywords are checked. */
  function During(s: State, e: Event): State {
    match e
    case Key(name) => s.(path := Extend(s.path, name))
    case EndObject(_) => s
    case EndArray(_) => s
    case StartArray => InArray(Begun(s))
    case _ => Begun(s)
  }

  /** The state after an event. */
  function Handle(s: State, e: Event): State {
    match e
    case Key(_) => During(s, e)
    case StartObject => During(s, e)
    case StartArray => During(s, e)
    case _ => Ended(During(s, e))
  }

  /** The state after a log of events. */
  function Replay(log: seq<Event>): State {
    if log == [] then START else Handle(Replay(log[..|log| - 1]), log[|log| - 1])
  }

  /** The paths reported at the events of a log. */
  function Reported(log: seq<Event>): (r: seq<string>)
    ensures |r| == |log|
  {
    if log == [] then []
    else Reported(log[..|log| - 1]) + [During(Replay(log[..|log| - 1]), log[|log| - 1]).path]
  }

  // ---------- the validator ----------

  class Validator {
    var documentStack: string
    var schemaStack: seq<Context>

    ghost function Now(): State
      reads this
    {
      State(documentStack, schemaStack)
    }

    constructor ()
      ensures Now() == START
    {
      documentStack, schemaStack := "", [];
    }

    method AppendToken(name: string)
      modifies this
      ensures Now() == old(Now()).(path := Extend(old(documentStack), name))
    {
      documentStack := documentStack + "/";
      ghost var start := documentStack;
      for i := 0 to |name|
        invariant schemaStack == old(schemaStack)
        invariant NameText(name, 0, false, start) == NameText(name, i, false, documentStack)
      {
        if name[i] == '~' {
          documentStack := documentStack + "~0";
        } else if name[i] == '/' {
          documentStack := documentStack + "~1";
        } else {
          documentStack := documentStack + [name[i]];
        }
      }
    }

    method BeginValue()
      modifies this
      ensures Now() == Begun(old(Now()))
    {
      if schemaStack == [] {
        schemaStack := [Context(false, 0)];
      } else {
        var last := |schemaStack| - 1;
        if schemaStack[last].inArray {
          documentStack := documentStack + "/" + Decimal(schemaStack[last].arrayElementIndex);
          schemaStack := schemaStack[last := Context(true, Inc(schemaStack[last].arrayElementIndex))];
        }
        schemaStack := schemaStack + [Context(false, 0)];
      }
    }

    method EndValue()
      requires schemaStack != []
      modifies this
      ensures Now() == Ended(old(Now()))
    {
      schemaStack := schemaStack[..|schemaStack| - 1];
      var done := false;
      while !done && documentStack != ""
        invariant schemaStack == old(schemaStack[..|schemaStack| - 1])
        invariant CutLast(old(documentStack)) == if done then documentStack else CutLast(documentStack)
        decreases |documentStack|
      {
        var last := |documentStack| - 1;
        done := documentStack[last] == '/';
        documentStack := documentStack[..last];
      }
    }

    /** Sends one event through; what is seen is the pointer reported if a keyword fails meanwhile. */
    method Receive(e: Event) returns (seen: string)
      requires e.EndObject? || e.EndArray? ==> schemaStack != []
      modifies this
      ensures Now() == Handle(old(Now()), e)
      ensures seen == During(old(Now()), e).path
    {
      if e.Key? {
        AppendToken(e.s);
        seen := documentStack;
      } else if e.EndObject? || e.EndArray? {
        seen := documentStack;
        EndValue();
      } else {
        BeginValue();
        if e.StartArray? {
          schemaStack := schemaStack[|schemaStack| - 1 := Context(true, 0)];
        }
        seen := documentStack;
        if !e.StartObject? && !e.StartArray? {
          EndValue();
        }
      }
    }

    /** Validates a log of events that closes only values it has opened. */
    method Run(log: seq<Event>) returns (seen: seq<string>)
      requires Now() == START && Nested(log)
      modifies this
      ensures Now() == Replay(log) && seen == Reported(log)
    {
      hide Handle, During;
      seen := [];
      for i := 0 to |log|
        invariant Now() == Replay(log[..i]) && seen == Reported(log[..i])
      {
        assert log[..i + 1][..i] == log[..i] && log[..i + 1][i] == log[i];
        var path := Receive(log[i]);
        seen := seen + [path];
      }
      assert log[..|log|] == log;
    }
  }

  /** Every end closes an open value. */
  predicate Nested(log: seq<Event>) {
    forall i | 0 <= i < |log| && (log[i].EndObject? || log[i].EndArray?) :: Replay(log[..i]).contexts != []
  }
}
