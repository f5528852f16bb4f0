/** The reported paths are the pointers to the values they are reported for. */
module SchemaPathLaws {
  import opened JsonText
  import opened JsonValue
  import opened JsonPointer
  import opened Decimals
  import opened SchemaPath
  import PointerTree
  import PointerLaws
  import PointerIndexes

  // ---------- the text of a path ----------

  function Text(path: seq<Token>): string {
    var r := Print(path, false);
    if r.Printed? then r.text else ""
  }

  lemma {:induction false} NoSolidus(name: string, j: nat, out: string, w: string)
    requires j <= |name| && '/' !in w
    ensures var r := NameText(name, j, false, out + w);
            r.Printed? && IsPlainTail(out, r.text)
    decreases |name| - j
  {
    if j == |name| {
      assert (out + w)[|out|..] == w;
    } else {
      var e := EscapeUnit(name[j]);
      assert out + w + e == out + (w + e);
      NoSolidus(name, j + 1, out, w + e);
    }
  }

  /** The text continues out without another '/'. */
  predicate IsPlainTail(out: string, text: string) {
    |out| <= |text| && text[..|out|] == out && '/' !in text[|out|..]
  }

  lemma {:induction false} CutTail(path: string, text: string)
    requires IsPlainTail(path + "/", text)
    ensures CutLast(text) == path
    decreases |text|
  {
    var last := |text| - 1;
    if |text| == |path| + 1 {
      assert text == path + "/";
    } else {
      assert text[last] == text[|path| + 1..][last - |path| - 1];
      var shorter := text[..last];
      assert text[|path| + 1..] == shorter[|path| + 1..] + [text[last]];
      CutTail(path, shorter);
    }
  }

  /** Cutting back to the last '/' removes exactly the token that was added, whatever it contains. */
  lemma CutExtended(path: string, name: string)
    ensures CutLast(Extend(path, name)) == path
  {
    assert path + "/" + "" == path + "/";
    NoSolidus(name, 0, path + "/", "");
    CutTail(path, Extend(path, name));
  }

  lemma {:induction false} DigitsUnescaped(name: string, j: nat, out: string)
    requires j <= |name| && forall c | c in name :: '0' <= c <= '9'
    ensures NameText(name, j, false, out) == Printed(out + name[j..])
    decreases |name| - j
  {
    if j < |name| {
      assert name[j] in name;
      DigitsUnescaped(name, j + 1, out + [name[j]]);
      assert out + [name[j]] + name[j + 1..] == out + name[j..];
    } else {
      assert out + name[j..] == out;
    }
  }

  lemma ExtendIndex(path: string, i: nat)
    ensures Extend(path, Decimal(i)) == path + "/" + Decimal(i)
  {
    DigitsUnescaped(Decimal(i), 0, path + "/");
    assert Decimal(i)[0..] == Decimal(i);
  }

  lemma {:induction false} TokensTextAppend(path: seq<Token>, t: Token, k: nat, out: string)
    requires k <= |path|
    ensures TokensText(path, k, false, out).Printed?
    ensures TokensText(path + [t], k, false, out) == NameText(t.name, 0, false, TokensText(path, k, false, out).text + "/")
    decreases |path| - k
  {
    hide NameText;
    PointerLaws.PlainTokens(path, k, out);
    if k < |path| {
      assert (path + [t])[k] == path[k];
      PointerLaws.PlainName(path[k].name, 0, out + "/");
      TokensTextAppend(path, t, k + 1, NameText(path[k].name, 0, false, out + "/").text);
    } else {
      PointerLaws.PlainName(t.name, 0, out + "/");
      PointerLaws.TokensEnd(path + [t], false, NameText(t.name, 0, false, out + "/").text);
    }
  }

  lemma TextExtend(path: seq<Token>, t: Token)
    ensures Text(path + [t]) == Extend(Text(path), t.name)
  {
    hide NameText;
    TokensTextAppend(path, t, 0, "");
    PointerLaws.PlainName(t.name, 0, Text(path) + "/");
  }

  // ---------- the paths of a tree ----------

  /** What an event is about: a value and the path to it. */
  datatype Visit = Visit(path: seq<Token>, value: Value)

  function NameToken(name: string): Token {
    Token(name, IndexOf(name))
  }

  function IndexToken(i: nat): Token {
    Token(Decimal(i), i)
  }

  /** The visits of the events of a tree, in the order in which the tree sends them. */
  function Visits(v: Value, at: seq<Token>, log: seq<Visit>): seq<Visit>
    decreases v, 1
  {
    match v
    case VArray(vs) => VisitElements(vs, 0, at, log + [Visit(at, v)]) + [Visit(at, v)]
    case VObject(ms) => VisitMembers(ms, at, log + [Visit(at, v)]) + [Visit(at, v)]
    case _ => log + [Visit(at, v)]
  }

  function VisitElements(vs: seq<Value>, i: nat, at: seq<Token>, log: seq<Visit>): seq<Visit>
    decreases vs, 0
  {
    if vs == [] then log
    else VisitElements(vs[1..], i + 1, at, Visits(vs[0], at + [IndexToken(i)], log))
  }

  function VisitMembers(ms: seq<Member>, at: seq<Token>, log: seq<Visit>): seq<Visit>
    decreases ms, 0
  {
    if ms == [] then log
    else
      var path := at + [NameToken(ms[0].name)];
      VisitMembers(ms[1..], at, Visits(ms[0].value, path, log + [Visit(path, ms[0].value)]))
  }

  function Texts(visits: seq<Visit>): (r: seq<string>)
    ensures |r| == |visits|
  {
    seq(|visits|, i requires 0 <= i < |visits| => Text(visits[i].path))
  }

  /** The state and the reports behind a log, at a value whose path is given. */
  predicate Tracks(log: seq<Event>, visits: seq<Visit>) {
    Nested(log) && Reported(log) == Texts(visits)
  }

  lemma OneEvent(log: seq<Event>, visits: seq<Visit>, e: Event, path: seq<Token>, x: Value)
    requires Tracks(log, visits) && During(Replay(log), e).path == Text(path)
    requires e.EndObject? || e.EndArray? ==> Replay(log).contexts != []
    ensures Tracks(log + [e], visits + [Visit(path, x)])
    ensures Replay(log + [e]) == Handle(Replay(log), e)
  {
    hide Handle, During;
    assert (log + [e])[..|log|] == log;
    forall i | 0 <= i < |log| ensures (log + [e])[..i] == log[..i] {}
    assert Texts(visits + [Visit(path, x)]) == Texts(visits) + [Text(path)];
  }

  lemma {:induction false} ValueReported(v: Value, at: seq<Token>, log: seq<Event>, visits: seq<Visit>)
    requires Proper(v) && Tracks(log, visits) && Begun(Replay(log)).path == Text(at)
    ensures Replay(Accept(v, log)) == Ended(Begun(Replay(log)))
    ensures Tracks(Accept(v, log), Visits(v, at, visits))
    decreases v, 1
  {
    if v.VArray? {
      ArrayReported(v, at, log, visits);
    } else if v.VObject? {
      ObjectReported(v, at, log, visits);
    } else {
      ScalarEvent(v, log);
      hide Text, Begun, Ended, Tracks, Accept;
      OneEvent(log, visits, Accept(v, log)[|log|], at, v);
    }
  }

  lemma {:induction false} ArrayReported(v: Value, at: seq<Token>, log: seq<Event>, visits: seq<Visit>)
    requires v.VArray? && Proper(v) && Tracks(log, visits) && Begun(Replay(log)).path == Text(at)
    ensures Replay(Accept(v, log)) == Ended(Begun(Replay(log)))
    ensures Tracks(Accept(v, log), Visits(v, at, visits))
    decreases v, 0
  {
    var s, vs, visit := Replay(log), v.elements, Visit(at, v);
    var outer := Begun(s).contexts[..|Begun(s).contexts| - 1];
    Containers(s, |vs|);
    ArrayUnfolded(vs, at, log, visits);
    hide Text, Begun, Ended, Tracks, Accept, Visits, Handle, During;
    OneEvent(log, visits, StartArray, at, v);
    var inside := log + [StartArray];
    ElementsReported(vs, 0, at, inside, visits + [visit], outer);
    OneEvent(AcceptElements(vs, inside), VisitElements(vs, 0, at, visits + [visit]), EndArray(|vs|), at, v);
  }

  lemma {:induction false} ObjectReported(v: Value, at: seq<Token>, log: seq<Event>, visits: seq<Visit>)
    requires v.VObject? && Proper(v) && Tracks(log, visits) && Begun(Replay(log)).path == Text(at)
    ensures Replay(Accept(v, log)) == Ended(Begun(Replay(log)))
    ensures Tracks(Accept(v, log), Visits(v, at, visits))
    decreases v, 0
  {
    var s, ms, visit := Replay(log), v.members, Visit(at, v);
    var outer := Begun(s).contexts[..|Begun(s).contexts| - 1];
    Containers(s, |ms|);
    ObjectUnfolded(ms, at, log, visits);
    hide Text, Begun, Ended, Tracks, Accept, Visits, Handle, During;
    OneEvent(log, visits, StartObject, at, v);
    var inside := log + [StartObject];
    MembersReported(ms, at, inside, visits + [visit], outer);
    OneEvent(AcceptMembers(ms, inside), VisitMembers(ms, at, visits + [visit]), EndObject(|ms|), at, v);
  }

  /** What the start and the end of a container do to the two stacks. */
  lemma Containers(s: State, n: nat)
    ensures var b := Begun(s); var outer := b.contexts[..|b.contexts| - 1];
            && Handle(s, StartArray) == State(b.path, outer + [Context(true, 0)])
            && Handle(s, StartObject) == State(b.path, outer + [Context(false, 0)])
            && During(s, StartArray).path == During(s, StartObject).path == b.path
            && (forall c, k :: During(State(b.path, outer + [c]), EndArray(k)).path == b.path)
            && (forall c, k :: During(State(b.path, outer + [c]), EndObject(k)).path == b.path)
            && (forall c, k :: Handle(State(b.path, outer + [c]), EndArray(k)) == Ended(b))
            && (forall c, k :: Handle(State(b.path, outer + [c]), EndObject(k)) == Ended(b))
  {
    hide CutLast;
  }

  lemma ArrayUnfolded(vs: seq<Value>, at: seq<Token>, log: seq<Event>, visits: seq<Visit>)
    ensures var v := VArray(vs);
            && Accept(v, log) == AcceptElements(vs, log + [StartArray]) + [EndArray(|vs|)]
            && Visits(v, at, visits) == VisitElements(vs, 0, at, visits + [Visit(at, v)]) + [Visit(at, v)]
  {
    hide AcceptElements, VisitElements;
  }

  lemma ObjectUnfolded(ms: seq<Member>, at: seq<Token>, log: seq<Event>, visits: seq<Visit>)
    ensures var v := VObject(ms);
            && Accept(v, log) == AcceptMembers(ms, log + [StartObject]) + [EndObject(|ms|)]
            && Visits(v, at, visits) == VisitMembers(ms, at, visits + [Visit(at, v)]) + [Visit(at, v)]
  {
    hide AcceptMembers, VisitMembers;
  }

  lemma ScalarEvent(v: Value, log: seq<Event>)
    requires !v.VArray? && !v.VObject?
    ensures |Accept(v, log)| == |log| + 1
    ensures var e := Accept(v, log)[|log|];
            Accept(v, log) == log + [e] && !e.Key? && !e.StartObject? && !e.StartArray? && !e.EndObject? && !e.EndArray?
  {}

  lemma {:induction false} ElementsReported(vs: seq<Value>, i: nat, at: seq<Token>, log: seq<Event>, visits: seq<Visit>, outer: seq<Context>)
    requires i + |vs| < SIZE_LIMIT && (forall v | v in vs :: Proper(v)) && Tracks(log, visits)
    requires Replay(log) == State(Text(at), outer + [Context(true, i)])
    ensures Replay(AcceptElements(vs, log)) == State(Text(at), outer + [Context(true, i + |vs|)])
    ensures Tracks(AcceptElements(vs, log), VisitElements(vs, i, at, visits))
    decreases vs, 0
  {
    hide Text, CutLast, Proper, Tracks, Begun, Ended, Replay, Accept, Visits, Decimal;
    if vs != [] {
      ElementStep(at, i, outer);
      ValueReported(vs[0], at + [IndexToken(i)], log, visits);
      ElementsReported(vs[1..], i + 1, at, Accept(vs[0], log), Visits(vs[0], at + [IndexToken(i)], visits), outer);
    }
  }

  lemma ElementStep(at: seq<Token>, i: nat, outer: seq<Context>)
    requires i + 1 < SIZE_LIMIT
    ensures var s := State(Text(at), outer + [Context(true, i)]);
            && Begun(s).path == Text(at + [IndexToken(i)])
            && Ended(Begun(s)) == State(Text(at), outer + [Context(true, i + 1)])
  {
    hide Text, CutLast, Extend;
    TextExtend(at, IndexToken(i));
    ExtendIndex(Text(at), i);
    CutExtended(Text(at), Decimal(i));
  }

  lemma {:induction false} MembersReported(ms: seq<Member>, at: seq<Token>, log: seq<Event>, visits: seq<Visit>, outer: seq<Context>)
    requires (forall m | m in ms :: Proper(m.value)) && Tracks(log, visits)
    requires Replay(log) == State(Text(at), outer + [Context(false, 0)])
    ensures Replay(AcceptMembers(ms, log)) == Replay(log)
    ensures Tracks(AcceptMembers(ms, log), VisitMembers(ms, at, visits))
    decreases ms, 0
  {
    hide Text, CutLast, Proper, Extend;
    if ms != [] {
      var path := at + [NameToken(ms[0].name)];
      TextExtend(at, NameToken(ms[0].name));
      OneEvent(log, visits, Key(ms[0].name), path, ms[0].value);
      hide Tracks;
      var named := log + [Key(ms[0].name)];
      var visits' := visits + [Visit(path, ms[0].value)];
      ValueReported(ms[0].value, path, named, visits');
      CutExtended(Text(at), ms[0].name);
      MembersReported(ms[1..], at, Accept(ms[0].value, named), Visits(ms[0].value, path, visits'), outer);
    }
  }

  /** While a tree is validated, the path reported at each of its events is the text of the pointer
      to the value the event is about; at the end nothing is left on either stack. */
  lemma PathsReported(v: Value)
    requires Proper(v)
    ensures Nested(Accept(v, [])) && Replay(Accept(v, [])) == START
    ensures Reported(Accept(v, [])) == Texts(Visits(v, [], []))
  {
    ValueReported(v, [], [], []);
  }

  // ---------- the pointers lead to the values ----------

  /** A tree in which names and indexes tell values apart. */
  predicate Addressable(v: Value)
    decreases v, 0
  {
    match v
    case VArray(vs) => |vs| < SIZE_LIMIT && forall e | e in vs :: Addressable(e)
    case VObject(ms) =>
      && UniqueNames(ms)
      && forall m | m in ms :: |m.name| < SIZE_LIMIT && Addressable(m.value)
    case _ => true
  }

  /** The printed path parses back to the path, which leads to the value. */
  predicate Found(root: Value, visit: Visit) {
    && PointerLaws.Regular(visit.path)
    && Parse(Text(visit.path)) == Tokens(visit.path)
    && match PointerTree.Resolve(root, visit.path)
       case Unresolved(_) => false
       case Resolved(q) => PointerTree.At(PointerTree.Root(root), q).value == visit.value
  }

  predicate AllFound(root: Value, visits: seq<Visit>) {
    forall i | 0 <= i < |visits| :: Found(root, visits[i])
  }

  lemma FoundBelow(root: Value, at: seq<Token>, v: Value, t: Token, i: nat)
    requires Found(root, Visit(at, v)) && PointerTree.StepTo(v, t) == PointerTree.Step(i)
    requires |t.name| < SIZE_LIMIT && t.index == IndexOf(t.name)
    ensures Found(root, Visit(at + [t], PointerTree.Kid(v, i).value))
  {
    hide IndexOf, Parse, Print, PointerTree.StepTo;
    PointerTree.ResolveAppend(root, at, t);
    PointerTree.AtStep(PointerTree.Root(root), PointerTree.Resolve(root, at).location, i);
    PointerLaws.ParsePrinted(at + [t], false);
  }

  lemma AllFoundMore(root: Value, visits: seq<Visit>, visit: Visit)
    requires AllFound(root, visits) && Found(root, visit)
    ensures AllFound(root, visits + [visit])
  {}

  lemma {:induction false} ValueFound(root: Value, v: Value, at: seq<Token>, log: seq<Visit>)
    requires Addressable(v) && Found(root, Visit(at, v)) && AllFound(root, log)
    ensures AllFound(root, Visits(v, at, log))
    decreases v, 1
  {
    hide Found, AllFound;
    AllFoundMore(root, log, Visit(at, v));
    if v.VArray? {
      ElementsFound(root, v, 0, at, log + [Visit(at, v)]);
      assert v.elements[0..] == v.elements;
      AllFoundMore(root, VisitElements(v.elements, 0, at, log + [Visit(at, v)]), Visit(at, v));
    } else if v.VObject? {
      MembersFound(root, v, 0, at, log + [Visit(at, v)]);
      assert v.members[0..] == v.members;
      AllFoundMore(root, VisitMembers(v.members, at, log + [Visit(at, v)]), Visit(at, v));
    }
  }

  lemma {:induction false} ElementsFound(root: Value, v: Value, i: nat, at: seq<Token>, log: seq<Visit>)
    requires v.VArray? && i <= |v.elements| && Addressable(v) && Found(root, Visit(at, v)) && AllFound(root, log)
    ensures AllFound(root, VisitElements(v.elements[i..], i, at, log))
    decreases v, 0, |v.elements| - i
  {
    hide Found, AllFound, IndexOf;
    var vs := v.elements;
    if i < |vs| {
      assert vs[i..][0] == vs[i] && vs[i..][1..] == vs[i + 1..];
      IndexTokenFits(i);
      FoundBelow(root, at, v, IndexToken(i), i);
      ValueFound(root, vs[i], at + [IndexToken(i)], log);
      ElementsFound(root, v, i + 1, at, Visits(vs[i], at + [IndexToken(i)], log));
    }
  }

  lemma IndexTokenFits(i: nat)
    requires i < SIZE_LIMIT
    ensures IndexOf(Decimal(i)) == i && |Decimal(i)| < SIZE_LIMIT
  {
    PointerIndexes.DecimalIndex(i);
    DecimalLength(i, 10);
  }

  lemma {:induction false} DecimalLength(n: nat, k: nat)
    requires 1 <= k <= 10 && n < [0, 10, 100, 1_000, 10_000, 100_000, 1_000_000, 10_000_000, 100_000_000, 1_000_000_000, 10_000_000_000][k]
    ensures |Decimal(n)| <= k
    decreases k
  {
    if n >= 10 { DecimalLength(n / 10, k - 1); }
  }

  lemma {:induction false} MembersFound(root: Value, v: Value, i: nat, at: seq<Token>, log: seq<Visit>)
    requires v.VObject? && i <= |v.members| && Addressable(v) && Found(root, Visit(at, v)) && AllFound(root, log)
    ensures AllFound(root, VisitMembers(v.members[i..], at, log))
    decreases v, 0, |v.members| - i
  {
    hide Found, AllFound, IndexOf;
    var ms := v.members;
    if i < |ms| {
      assert ms[i..][0] == ms[i] && ms[i..][1..] == ms[i + 1..];
      var path := at + [NameToken(ms[i].name)];
      var visit := Visit(path, ms[i].value);
      assert ms[i] in ms;
      FoundBelow(root, at, v, NameToken(ms[i].name), i);
      AllFoundMore(root, log, visit);
      ValueFound(root, ms[i].value, path, log + [visit]);
      MembersFound(root, v, i + 1, at, Visits(ms[i].value, path, log + [visit]));
    }
  }

  /** In a tree with unique names, parsing the path reported at any event gives a pointer that leads
      to the value the event is about. */
  lemma ReportedPointers(v: Value, i: nat)
    requires Proper(v) && Addressable(v) && i < |Accept(v, [])|
    ensures |Visits(v, [], [])| == |Accept(v, [])|
    ensures var visit := Visits(v, [], [])[i];
            && Parse(Reported(Accept(v, []))[i]) == Tokens(visit.path)
            && match PointerTree.Resolve(v, visit.path)
               case Unresolved(_) => false
               case Resolved(q) => PointerTree.At(PointerTree.Root(v), q).value == visit.value
  {
    hide Visits, Proper, Addressable;
    PathsReported(v);
    RootFound(v);
    ValueFound(v, v, [], []);
    assert Found(v, Visits(v, [], [])[i]);
    assert |Reported(Accept(v, []))| == |Texts(Visits(v, [], []))|;
  }

  lemma RootFound(v: Value)
    ensures Found(v, Visit([], v))
  {
    PointerLaws.ParsePrinted([], false);
  }
}
