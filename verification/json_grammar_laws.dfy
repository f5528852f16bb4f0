/** The recursive parser accepts exactly the texts of RFC 8259 whose numbers are in range and whose
    escaped surrogates are paired. */
module GrammarLaws {
  import opened JsonText
  import opened JsonScalars
  import opened JsonGrammar
  import opened GrammarScalars
  import Recursive = RecursiveParser
  import IterativeParser
  import ParserEquivalence
  import PullParser

  // ---------- spans ----------

  /** The text from p to q. */
  function Span(t: string, p: nat, q: nat): string
    requires p <= q <= |t|
  {
    t[p..q]
  }

  lemma SpaceSpan(t: string, p: nat, q: nat)
    requires p <= q <= |t|
    ensures IsSpace(Span(t, p, q)) <==> forall i | p <= i < q :: IsWs(t[i])
  {
    if IsSpace(Span(t, p, q)) {
      forall i | p <= i < q ensures IsWs(t[i]) { assert t[i] == t[p..q][i - p]; }
    }
  }

  lemma {:induction false} WsIs(t: string, p: nat, q: nat)
    requires p <= q <= |t| && (forall i | p <= i < q :: IsWs(t[i])) && !IsWs(Peek(t, q))
    ensures Ws(t, p) == q
    decreases q - p
  {
    if p < q { WsIs(t, p + 1, q); }
  }

  /** What stands between p and the token behind the white space. */
  lemma WsSpan(t: string, p: nat)
    requires p <= |t|
    ensures IsSpace(Span(t, p, Ws(t, p)))
  {
    SpaceSpan(t, p, Ws(t, p));
  }

  lemma ElementSpan(t: string, p: nat, a: nat, b: nat, q: nat, l: Limits)
    requires p <= a <= b <= q <= |t| && IsSpace(Span(t, p, a)) && IsValue(Span(t, a, b), l) && IsSpace(Span(t, b, q))
    ensures IsElement(Span(t, p, q), l)
  {
    hide IsSpace, IsValue;
    Three(t, p, q, a - p, b - p);
  }

  lemma ElementParts(t: string, p: nat, q: nat, l: Limits) returns (a: nat, b: nat)
    requires p <= q <= |t| && IsElement(Span(t, p, q), l)
    ensures p <= a <= b <= q && IsSpace(Span(t, p, a)) && IsValue(Span(t, a, b), l) && IsSpace(Span(t, b, q))
  {
    hide IsElement, IsSpace, IsValue;
    var i, j := ElementWitness(t[p..q], l);
    Three(t, p, q, i, j);
    a, b := p + i, p + j;
  }

  lemma ElementWitness(s: string, l: Limits) returns (i: nat, j: nat)
    requires IsElement(s, l)
    ensures i <= j <= |s| && IsSpace(s[..i]) && IsValue(s[i..j], l) && IsSpace(s[j..])
  {
    hide IsSpace, IsValue;
    var a: int, b: int :| 0 <= a <= b <= |s| && IsSpace(s[..a]) && IsValue(s[a..b], l) && IsSpace(s[b..]);
    i, j := a, b;
  }

  lemma NameSpan(t: string, p: nat, a: nat, b: nat, q: nat, l: Limits)
    requires p <= a <= b <= q <= |t| && IsSpace(Span(t, p, a)) && IsString(Span(t, a, b), l) && IsSpace(Span(t, b, q))
    ensures IsName(Span(t, p, q), l)
  {
    hide IsSpace, IsString, IsChars, IsNumber;
    Three(t, p, q, a - p, b - p);
  }

  lemma NameParts(t: string, p: nat, q: nat, l: Limits) returns (a: nat, b: nat)
    requires p <= q <= |t| && IsName(Span(t, p, q), l)
    ensures p <= a <= b <= q && IsSpace(Span(t, p, a)) && IsString(Span(t, a, b), l) && IsSpace(Span(t, b, q))
  {
    hide IsName, IsSpace, IsString;
    var i, j := NameWitness(t[p..q], l);
    Three(t, p, q, i, j);
    a, b := p + i, p + j;
  }

  lemma NameWitness(s: string, l: Limits) returns (i: nat, j: nat)
    requires IsName(s, l)
    ensures i <= j <= |s| && IsSpace(s[..i]) && IsString(s[i..j], l) && IsSpace(s[j..])
  {
    hide IsSpace, IsString, IsChars, IsNumber;
    var a: int, b: int :| 0 <= a <= b <= |s| && IsSpace(s[..a]) && IsString(s[a..b], l) && IsSpace(s[b..]);
    i, j := a, b;
  }

  lemma MemberSpan(t: string, p: nat, c: nat, q: nat, l: Limits)
    requires p <= c < q <= |t| && t[c] == ':' && IsName(Span(t, p, c), l) && IsElement(Span(t, c + 1, q), l)
    ensures IsMember(Span(t, p, q), l)
  {
    hide IsName, IsElement;
    ListSpan(t, p, c, q);
    var s := t[p..q];
    assert s[c - p] == ':' && IsName(s[..c - p], l) && IsElement(s[c - p + 1..], l);
  }

  lemma MemberParts(t: string, p: nat, q: nat, l: Limits) returns (c: nat)
    requires p <= q <= |t| && IsMember(Span(t, p, q), l)
    ensures p <= c < q && t[c] == ':' && IsName(Span(t, p, c), l) && IsElement(Span(t, c + 1, q), l)
  {
    hide IsName, IsElement, IsMember;
    var i := MemberWitness(t[p..q], l);
    ListSpan(t, p, p + i, q);
    c := p + i;
  }

  lemma MemberWitness(s: string, l: Limits) returns (i: nat)
    requires IsMember(s, l)
    ensures i < |s| && s[i] == ':' && IsName(s[..i], l) && IsElement(s[i + 1..], l)
  {
    hide IsName, IsElement;
    var c: int :| 0 <= c < |s| && s[c] == ':' && IsName(s[..c], l) && IsElement(s[c + 1..], l);
    i := c;
  }

  /** Elements and the bracket that closes their array. */
  ghost predicate ElementsTo(t: string, p: nat, q: nat, l: Limits) {
    p < q <= |t| && t[q - 1] == ']' && IsElements(Span(t, p, q - 1), l)
  }

  ghost predicate MembersTo(t: string, p: nat, q: nat, l: Limits) {
    p < q <= |t| && t[q - 1] == '}' && IsMembers(Span(t, p, q - 1), l)
  }

  lemma ElementsClose(t: string, p: nat, i: nat, l: Limits)
    requires p <= i < |t| && t[i] == ']' && IsElement(Span(t, p, i), l)
    ensures ElementsTo(t, p, i + 1, l)
  {
    hide IsElement;
  }

  lemma MembersClose(t: string, p: nat, i: nat, l: Limits)
    requires p <= i < |t| && t[i] == '}' && IsMember(Span(t, p, i), l)
    ensures MembersTo(t, p, i + 1, l)
  {
    hide IsMember;
  }

  lemma ElementsSpan(t: string, p: nat, i: nat, q: nat, l: Limits)
    requires p <= i < |t| && t[i] == ',' && IsElement(Span(t, p, i), l) && ElementsTo(t, i + 1, q, l)
    ensures ElementsTo(t, p, q, l)
  {
    hide IsElement;
    ListSpan(t, p, i, q - 1);
    var s := t[p..q - 1];
    assert s[i - p] == ',' && IsElement(s[..i - p], l) && IsElements(s[i - p + 1..], l);
  }

  lemma MembersSpan(t: string, p: nat, i: nat, q: nat, l: Limits)
    requires p <= i < |t| && t[i] == ',' && IsMember(Span(t, p, i), l) && MembersTo(t, i + 1, q, l)
    ensures MembersTo(t, p, q, l)
  {
    hide IsMember;
    ListSpan(t, p, i, q - 1);
    var s := t[p..q - 1];
    assert s[i - p] == ',' && IsMember(s[..i - p], l) && IsMembers(s[i - p + 1..], l);
  }

  lemma ListSpan(t: string, p: nat, i: nat, q: nat)
    requires p <= i < q <= |t|
    ensures t[p..q][i - p] == t[i] && t[p..q][..i - p] == t[p..i] && t[p..q][i - p + 1..] == t[i + 1..q]
  {
    Sub(t, p, q, 0, i - p);
    Sub(t, p, q, i - p + 1, q - p);
  }

  lemma ElementsWitness(s: string, l: Limits) returns (k: nat)
    requires IsElements(s, l)
    ensures k <= |s| && IsElement(s[..k], l) && (k < |s| ==> s[k] == ',' && IsElements(s[k + 1..], l))
  {
    hide IsElement;
    if IsElement(s, l) {
      k := |s|;
      assert s[..k] == s;
    } else {
      var i: int :| 0 <= i < |s| && s[i] == ',' && IsElement(s[..i], l) && IsElements(s[i + 1..], l);
      k := i;
    }
  }

  lemma MembersWitness(s: string, l: Limits) returns (k: nat)
    requires IsMembers(s, l)
    ensures k <= |s| && IsMember(s[..k], l) && (k < |s| ==> s[k] == ',' && IsMembers(s[k + 1..], l))
  {
    hide IsMember;
    if IsMember(s, l) {
      k := |s|;
      assert s[..k] == s;
    } else {
      var i: int :| 0 <= i < |s| && s[i] == ',' && IsMember(s[..i], l) && IsMembers(s[i + 1..], l);
      k := i;
    }
  }

  /** The place of the first comma between elements, or the end of the only one. */
  lemma ElementsParts(t: string, p: nat, q: nat, l: Limits) returns (i: nat)
    requires p <= q <= |t| && IsElements(Span(t, p, q), l)
    ensures p <= i <= q && IsElement(Span(t, p, i), l)
    ensures i < q ==> t[i] == ',' && IsElements(Span(t, i + 1, q), l)
  {
    hide IsElement, IsElements;
    var k := ElementsWitness(t[p..q], l);
    i := p + k;
    if i < q { ListSpan(t, p, i, q); } else { assert t[p..q][..k] == t[p..q]; }
  }

  lemma MembersParts(t: string, p: nat, q: nat, l: Limits) returns (i: nat)
    requires p <= q <= |t| && IsMembers(Span(t, p, q), l)
    ensures p <= i <= q && IsMember(Span(t, p, i), l)
    ensures i < q ==> t[i] == ',' && IsMembers(Span(t, i + 1, q), l)
  {
    hide IsMember, IsMembers;
    var k := MembersWitness(t[p..q], l);
    i := p + k;
    if i < q { ListSpan(t, p, i, q); } else { assert t[p..q][..k] == t[p..q]; }
  }

  lemma ContainerSpan(t: string, p: nat, q: nat, l: Limits)
    requires p + 2 <= q <= |t|
    ensures IsArray(Span(t, p, q), l) <==>
            t[p] == '[' && ((t[q - 1] == ']' && IsSpace(Span(t, p + 1, q - 1))) || ElementsTo(t, p + 1, q, l))
    ensures IsObject(Span(t, p, q), l) <==>
            t[p] == '{' && ((t[q - 1] == '}' && IsSpace(Span(t, p + 1, q - 1))) || MembersTo(t, p + 1, q, l))
  {
    hide IsSpace, IsElements, IsMembers;
    Sub(t, p, q, 1, q - p - 1);
    assert t[p..q][0] == t[p] && t[p..q][q - p - 1] == t[q - 1];
  }

  // ---------- soundness ----------

  lemma ScalarSpan(inp: Input, p: nat, l: Limits)
    requires l.overflows == inp.overflows
    requires p <= |inp.text| && Peek(inp.text, p) != '{' && Peek(inp.text, p) != '['
    requires ScalarAt(inp, p).Got?
    ensures IsValue(Span(inp.text, p, ScalarAt(inp, p).pos), l)
  {
    hide ScalarAt, IsValue;
    ScalarSound(inp, p, l);
  }

  lemma StringSpan(t: string, p: nat, l: Limits)
    requires p < |t| && t[p] == '\"' && StringAt(t, p).Text?
    ensures IsString(Span(t, p, StringAt(t, p).pos), l)
  {
    hide StringAt, IsString;
    StringSound(t, p, l);
  }

  /** A value that is parsed follows the grammar. */
  lemma {:induction false} ValueSound(inp: Input, p: nat, log: seq<Event>, l: Limits)
    requires l.overflows == inp.overflows
    requires p <= |inp.text| && Recursive.ValueAt(inp, p, log).Done?
    ensures IsValue(Span(inp.text, p, Recursive.ValueAt(inp, p, log).pos), l)
    decreases |inp.text| - p, 2
  {
    hide ScalarAt, Recursive.ObjectAt, Recursive.ArrayAt, Span, IsArray, IsObject, IsNumber, IsString;
    if Peek(inp.text, p) == '{' {
      ObjectSound(inp, p, log, l);
    } else if Peek(inp.text, p) == '[' {
      ArraySound(inp, p, log, l);
    } else {
      ScalarSpan(inp, p, l);
    }
  }

  lemma {:induction false} ObjectSound(inp: Input, p: nat, log: seq<Event>, l: Limits)
    requires l.overflows == inp.overflows
    requires p <= |inp.text| && Peek(inp.text, p) == '{' && Recursive.ObjectAt(inp, p, log).Done?
    ensures IsObject(Span(inp.text, p, Recursive.ObjectAt(inp, p, log).pos), l)
    decreases |inp.text| - p, 1
  {
    hide Recursive.ObjectAt, Recursive.MembersAt, MembersTo, Span, IsObject, IsSpace, Ws, Spaces;
    Recursive.ObjectStarts(inp, p, log);
    WsSpan(inp.text, p + 1);
    var p1 := Ws(inp.text, p + 1);
    if Peek(inp.text, p1) != '}' { MembersSound(inp, p + 1, p1, 0, log + [StartObject], l); }
    ContainerSpan(inp.text, p, Recursive.ObjectAt(inp, p, log).pos, l);
  }

  lemma {:induction false} ArraySound(inp: Input, p: nat, log: seq<Event>, l: Limits)
    requires l.overflows == inp.overflows
    requires p <= |inp.text| && Peek(inp.text, p) == '[' && Recursive.ArrayAt(inp, p, log).Done?
    ensures IsArray(Span(inp.text, p, Recursive.ArrayAt(inp, p, log).pos), l)
    decreases |inp.text| - p, 1
  {
    hide Recursive.ArrayAt, Recursive.ElementsAt, ElementsTo, Span, IsArray, IsSpace, Ws, Spaces;
    Recursive.ArrayStarts(inp, p, log);
    WsSpan(inp.text, p + 1);
    var p1 := Ws(inp.text, p + 1);
    if Peek(inp.text, p1) != ']' { ElementsSound(inp, p + 1, p1, 0, log + [StartArray], l); }
    ContainerSpan(inp.text, p, Recursive.ArrayAt(inp, p, log).pos, l);
  }

  lemma {:induction false} ElementsSound(inp: Input, from: nat, p: nat, count: nat, log: seq<Event>, l: Limits)
    requires l.overflows == inp.overflows
    requires from <= p <= |inp.text| && IsSpace(Span(inp.text, from, p)) && Recursive.ElementsAt(inp, p, count, log).Done?
    ensures ElementsTo(inp.text, from, Recursive.ElementsAt(inp, p, count, log).pos, l)
    decreases |inp.text| - p, 3
  {
    hide Recursive.ValueAt, Recursive.ElementsAt, ElementsTo, Span, IsElement, IsValue, IsSpace, Ws, Spaces;
    Recursive.ElementsEnd(inp, p, count, log);
    ValueSound(inp, p, log, l);
    var i, n := ElementStep(inp, from, p, count, log, l);
    if inp.text[i] == ',' {
      ElementsSound(inp, i + 1, n, Inc(count), Recursive.ValueAt(inp, p, log).events, l);
      ElementsSpan(inp.text, from, i, Recursive.ElementsAt(inp, p, count, log).pos, l);
    }
  }

  lemma ElementStep(inp: Input, from: nat, p: nat, count: nat, log: seq<Event>, l: Limits) returns (i: nat, n: nat)
    requires from <= p <= |inp.text| && IsSpace(Span(inp.text, from, p)) && Recursive.ElementsAt(inp, p, count, log).Done?
    requires var v := Recursive.ValueAt(inp, p, log); v.Done? && IsValue(Span(inp.text, p, v.pos), l)
    ensures p < i < |inp.text|
    ensures inp.text[i] == ',' ==>
              && p < n <= |inp.text| && i < n && IsSpace(Span(inp.text, i + 1, n)) && IsElement(Span(inp.text, from, i), l)
              && Recursive.ElementsAt(inp, p, count, log)
                 == Recursive.ElementsAt(inp, n, Inc(count), Recursive.ValueAt(inp, p, log).events)
    ensures inp.text[i] != ',' ==> ElementsTo(inp.text, from, Recursive.ElementsAt(inp, p, count, log).pos, l)
  {
    hide Recursive.ValueAt, Recursive.ElementsAt, ElementsTo, Span, IsElement, IsValue, IsSpace, Ws, Spaces;
    Recursive.ElementsEnd(inp, p, count, log);
    i, n := ItemEnd(inp, from, p, Recursive.ValueAt(inp, p, log).pos, l);
    if inp.text[i] != ',' { ElementsClose(inp.text, from, i, l); }
  }

  /** A value from p to q makes an element up to the next token, at i; behind a delimiter there the
      next token is at n. */
  lemma ItemEnd(inp: Input, from: nat, p: nat, q: nat, l: Limits) returns (i: nat, n: nat)
    requires from <= p <= q <= |inp.text| && IsSpace(Span(inp.text, from, p)) && IsValue(Span(inp.text, p, q), l)
    ensures i == Ws(inp.text, q) && IsElement(Span(inp.text, from, i), l)
    ensures i < |inp.text| ==> n == Ws(inp.text, i + 1) && IsSpace(Span(inp.text, i + 1, n))
  {
    hide Span, IsElement, IsValue, IsSpace, Ws, Spaces;
    i, n := Ws(inp.text, q), 0;
    WsSpan(inp.text, q);
    ElementSpan(inp.text, from, p, q, i, l);
    if i < |inp.text| {
      n := Ws(inp.text, i + 1);
      WsSpan(inp.text, i + 1);
    }
  }

  lemma {:induction false} MembersSound(inp: Input, from: nat, p: nat, count: nat, log: seq<Event>, l: Limits)
    requires l.overflows == inp.overflows
    requires from <= p <= |inp.text| && IsSpace(Span(inp.text, from, p)) && Recursive.MembersAt(inp, p, count, log).Done?
    ensures MembersTo(inp.text, from, Recursive.MembersAt(inp, p, count, log).pos, l)
    decreases |inp.text| - p, 0
  {
    hide Recursive.MemberValueAt, StringAt, MembersTo, Span, IsName, IsString, IsSpace, Ws, Spaces;
    var t := inp.text;
    var key := StringAt(t, p);
    StringSpan(t, p, l);
    var c := Ws(t, key.pos);
    WsSpan(t, key.pos);
    NameSpan(t, from, p, key.pos, c, l);
    MemberValueSound(inp, from, c, count, log + [Key(key.s)], l);
  }

  lemma {:induction false} MemberValueSound(inp: Input, from: nat, c: nat, count: nat, log: seq<Event>, l: Limits)
    requires l.overflows == inp.overflows
    requires from <= c < |inp.text| && inp.text[c] == ':'
    requires IsName(Span(inp.text, from, c), l)
    requires Recursive.MemberValueAt(inp, Ws(inp.text, c + 1), count, log).Done?
    ensures MembersTo(inp.text, from, Recursive.MemberValueAt(inp, Ws(inp.text, c + 1), count, log).pos, l)
    decreases |inp.text| - Ws(inp.text, c + 1), 3
  {
    hide Recursive.ValueAt, Recursive.MemberValueAt, Recursive.MembersAt, MembersTo, Span, IsMember, IsName, IsValue, IsSpace,
         Ws, Spaces;
    var p := Ws(inp.text, c + 1);
    Recursive.MembersEnd(inp, p, count, log);
    ValueSound(inp, p, log, l);
    var i, n := MemberStep(inp, from, c, count, log, l);
    if inp.text[i] == ',' {
      MembersSound(inp, i + 1, n, Inc(count), Recursive.ValueAt(inp, p, log).events, l);
      MembersSpan(inp.text, from, i, Recursive.MemberValueAt(inp, p, count, log).pos, l);
    }
  }

  lemma MemberStep(inp: Input, from: nat, c: nat, count: nat, log: seq<Event>, l: Limits) returns (i: nat, n: nat)
    requires from <= c < |inp.text| && inp.text[c] == ':' && IsName(Span(inp.text, from, c), l)
    requires Recursive.MemberValueAt(inp, Ws(inp.text, c + 1), count, log).Done?
    requires var p := Ws(inp.text, c + 1); var v := Recursive.ValueAt(inp, p, log); v.Done? && IsValue(Span(inp.text, p, v.pos), l)
    ensures Ws(inp.text, c + 1) < i < |inp.text|
    ensures inp.text[i] == ',' ==>
              var p := Ws(inp.text, c + 1);
              && p < n <= |inp.text| && i < n && IsSpace(Span(inp.text, i + 1, n)) && IsMember(Span(inp.text, from, i), l)
              && Recursive.MemberValueAt(inp, p, count, log)
                 == Recursive.MembersAt(inp, n, Inc(count), Recursive.ValueAt(inp, p, log).events)
    ensures inp.text[i] != ',' ==>
              MembersTo(inp.text, from, Recursive.MemberValueAt(inp, Ws(inp.text, c + 1), count, log).pos, l)
  {
    hide Recursive.ValueAt, Recursive.MemberValueAt, Recursive.MembersAt, MembersTo, Span, IsMember, IsName, IsValue, IsSpace,
         Ws, Spaces;
    var p := Ws(inp.text, c + 1);
    Recursive.MembersEnd(inp, p, count, log);
    i, n := MemberEnd(inp, from, c, Recursive.ValueAt(inp, p, log).pos, l);
    if inp.text[i] != ',' { MembersClose(inp.text, from, i, l); }
  }

  lemma MemberEnd(inp: Input, from: nat, c: nat, q: nat, l: Limits) returns (i: nat, n: nat)
    requires from <= c < |inp.text| && inp.text[c] == ':' && IsName(Span(inp.text, from, c), l)
    requires Ws(inp.text, c + 1) <= q <= |inp.text| && IsValue(Span(inp.text, Ws(inp.text, c + 1), q), l)
    ensures c < i == Ws(inp.text, q) && IsMember(Span(inp.text, from, i), l)
    ensures i < |inp.text| ==> n == Ws(inp.text, i + 1) && IsSpace(Span(inp.text, i + 1, n))
  {
    hide Span, IsElement, IsValue, IsMember, IsName, IsSpace, Ws, Spaces;
    WsSpan(inp.text, c + 1);
    i, n := ItemEnd(inp, c + 1, Ws(inp.text, c + 1), q, l);
    MemberSpan(inp.text, from, c, i, l);
  }

  // ---------- completeness ----------

  /** The outcome for a text that follows the grammar up to `end`. */
  predicate Accepts(r: Outcome, end: nat, l: Limits) {
    match r
    case Done(q, _) => q == end
    case Fail(code, _, _) => Refuses(code, l)
  }

  /** A character that a value can begin with. */
  predicate IsHead(c: char) {
    c == '\"' || c == '[' || c == '{' || c == '-' || c == 'n' || c == 't' || c == 'f' || IsDigit(c)
  }

  lemma ValueHead(s: string, l: Limits)
    requires IsValue(s, l)
    ensures s != "" && IsHead(s[0])
  {
    hide IsElements, IsMembers, IsChars, IsFrac, IsExp;
    if IsUnsigned(s) {
      var b, c := UnsignedWitness(s);
      assert s[0] == s[..b][0];
    }
  }

  lemma SpanHead(t: string, p: nat, q: nat, l: Limits)
    requires p <= q <= |t| && IsValue(Span(t, p, q), l)
    ensures p < q && IsHead(t[p])
  {
    hide IsValue;
    ValueHead(Span(t, p, q), l);
    assert Span(t, p, q)[0] == t[p];
  }

  /** White space up to a token is what is skipped. */
  lemma Skipped(t: string, p: nat, q: nat)
    requires p <= q <= |t| && IsSpace(Span(t, p, q)) && !IsWs(Peek(t, q))
    ensures Ws(t, p) == q
  {
    hide Span;
    SpaceSpan(t, p, q);
    WsIs(t, p, q);
  }

  /** Behind a value and white space the text stops any number. */
  lemma SpaceStops(t: string, p: nat, q: nat)
    requires p <= q <= |t| && IsSpace(Span(t, p, q)) && Stops(Peek(t, q))
    ensures Stops(Peek(t, p))
  {
    SpaceSpan(t, p, q);
  }

  /** An element of the grammar up to i: its value stands between a and b. */
  lemma ElementPlace(t: string, from: nat, i: nat, l: Limits) returns (a: nat, b: nat)
    requires from <= i <= |t| && IsElement(Span(t, from, i), l) && !IsWs(Peek(t, i)) && Stops(Peek(t, i))
    ensures from <= a < b <= i && IsValue(Span(t, a, b), l) && IsHead(t[a]) && Stops(Peek(t, b))
    ensures Ws(t, from) == a && Ws(t, b) == i
  {
    hide Span, IsElement, IsValue, IsSpace, Ws, Spaces;
    a, b := ElementParts(t, from, i, l);
    SpanHead(t, a, b, l);
    Skipped(t, from, a);
    Skipped(t, b, i);
    SpaceStops(t, b, i);
  }

  lemma {:induction false} ValueComplete(inp: Input, p: nat, q: nat, log: seq<Event>, l: Limits)
    requires l.overflows == inp.overflows
    requires p <= q <= |inp.text| && IsValue(Span(inp.text, p, q), l) && Stops(Peek(inp.text, q))
    ensures Accepts(Recursive.ValueAt(inp, p, log), q, l)
    decreases q - p, 2
  {
    hide Span, IsArray, IsObject, IsNumber, IsString, ScalarAt, Recursive.ObjectAt, Recursive.ArrayAt, Ws, Spaces;
    if IsArray(Span(inp.text, p, q), l) {
      ArrayComplete(inp, p, q, log, l);
    } else if IsObject(Span(inp.text, p, q), l) {
      ObjectComplete(inp, p, q, log, l);
    } else {
      ScalarSpanComplete(inp, p, q, l);
    }
  }

  lemma ScalarSpanComplete(inp: Input, p: nat, q: nat, l: Limits)
    requires l.overflows == inp.overflows
    requires p <= q <= |inp.text| && Stops(Peek(inp.text, q))
    requires var s := Span(inp.text, p, q); IsWord(s) || IsNumber(s, l) || IsString(s, l)
    ensures Peek(inp.text, p) != '{' && Peek(inp.text, p) != '['
    ensures match ScalarAt(inp, p)
            case Got(end, _) => end == q
            case Bad(code, _) => Refuses(code, l)
  {
    hide ScalarAt, IsNumber, IsString;
    ScalarComplete(inp, p, q, l);
  }

  lemma ContainerLength(s: string, l: Limits)
    requires IsArray(s, l) || IsObject(s, l)
    ensures 2 <= |s|
  {
    hide IsSpace, IsElements, IsMembers;
  }

  lemma {:induction false} ArrayComplete(inp: Input, p: nat, q: nat, log: seq<Event>, l: Limits)
    requires l.overflows == inp.overflows
    requires p <= q <= |inp.text| && IsArray(Span(inp.text, p, q), l)
    ensures Peek(inp.text, p) == '[' && Accepts(Recursive.ArrayAt(inp, p, log), q, l)
    decreases q - p, 1
  {
    hide IsArray, IsObject, IsSpace, IsElements, IsElement, Recursive.ArrayAt, Recursive.ElementsAt, Ws, Spaces;
    ContainerLength(Span(inp.text, p, q), l);
    ContainerSpan(inp.text, p, q, l);
    Recursive.ArrayStarts(inp, p, log);
    if inp.text[q - 1] == ']' && IsSpace(Span(inp.text, p + 1, q - 1)) {
      Skipped(inp.text, p + 1, q - 1);
    } else {
      ElementsHead(inp.text, p + 1, q - 1, l);
      ElementsComplete(inp, p + 1, q - 1, 0, log + [StartArray], l);
    }
  }

  lemma {:induction false} ObjectComplete(inp: Input, p: nat, q: nat, log: seq<Event>, l: Limits)
    requires l.overflows == inp.overflows
    requires p <= q <= |inp.text| && IsObject(Span(inp.text, p, q), l)
    ensures Peek(inp.text, p) == '{' && Accepts(Recursive.ObjectAt(inp, p, log), q, l)
    decreases q - p, 1
  {
    hide IsArray, IsObject, IsSpace, IsMembers, IsMember, Recursive.ObjectAt, Recursive.MembersAt, Ws, Spaces;
    ContainerLength(Span(inp.text, p, q), l);
    ContainerSpan(inp.text, p, q, l);
    Recursive.ObjectStarts(inp, p, log);
    if inp.text[q - 1] == '}' && IsSpace(Span(inp.text, p + 1, q - 1)) {
      Skipped(inp.text, p + 1, q - 1);
    } else {
      MembersHead(inp.text, p + 1, q - 1, l);
      MembersComplete(inp, p + 1, q - 1, 0, log + [StartObject], l);
    }
  }

  lemma ElementsHead(t: string, from: nat, end: nat, l: Limits)
    requires from <= end < |t| && t[end] == ']' && IsElements(Span(t, from, end), l)
    ensures IsHead(Peek(t, Ws(t, from)))
  {
    hide Span, IsElements, IsElement, IsValue, Ws, Spaces;
    var i := ElementsParts(t, from, end, l);
    var a, b := ElementPlace(t, from, i, l);
  }

  lemma MembersHead(t: string, from: nat, end: nat, l: Limits)
    requires from <= end < |t| && t[end] == '}' && IsMembers(Span(t, from, end), l)
    ensures Peek(t, Ws(t, from)) == '\"'
  {
    hide Span, IsMembers, IsMember, IsName, IsElement, IsString, StringAt, Ws, Spaces;
    var i := MembersParts(t, from, end, l);
    var c := MemberParts(t, from, i, l);
    var a, b := NamePlace(t, from, c, l);
  }

  lemma NamePlace(t: string, from: nat, c: nat, l: Limits) returns (a: nat, b: nat)
    requires from <= c < |t| && t[c] == ':' && IsName(Span(t, from, c), l)
    ensures from <= a < b <= c && t[a] == '\"' && Ws(t, from) == a && Ws(t, b) == c
    ensures match StringAt(t, a)
            case Text(end, _) => end == b
            case BadText(code, _) => Refuses(code, l)
  {
    hide IsName, IsString, IsSpace, StringAt, Ws, Spaces;
    a, b := NameParts(t, from, c, l);
    StringComplete(t, a, b, l);
    Skipped(t, from, a);
    Skipped(t, b, c);
  }

  lemma {:induction false} ElementsComplete(inp: Input, from: nat, end: nat, count: nat, log: seq<Event>, l: Limits)
    requires l.overflows == inp.overflows
    requires from <= end < |inp.text| && inp.text[end] == ']' && IsElements(Span(inp.text, from, end), l)
    ensures Accepts(Recursive.ElementsAt(inp, Ws(inp.text, from), count, log), end + 1, l)
    decreases end - from, 5
  {
    hide Span, IsElements, IsElement, IsValue, Ws, Spaces, Recursive.ValueAt, Recursive.ElementsAt;
    var i := ElementsParts(inp.text, from, end, l);
    var a, b := ElementPlace(inp.text, from, i, l);
    ValueComplete(inp, a, b, log, l);
    Recursive.ElementsGo(inp, a, count, log);
    if i < end {
      ElementsComplete(inp, i + 1, end, Inc(count), Recursive.ValueAt(inp, a, log).events, l);
    }
  }

  lemma {:induction false} MembersComplete(inp: Input, from: nat, end: nat, count: nat, log: seq<Event>, l: Limits)
    requires l.overflows == inp.overflows
    requires from <= end < |inp.text| && inp.text[end] == '}' && IsMembers(Span(inp.text, from, end), l)
    ensures Accepts(Recursive.MembersAt(inp, Ws(inp.text, from), count, log), end + 1, l)
    decreases end - from, 5
  {
    hide Span, IsMembers, IsMember, IsName, IsElement, IsValue, Ws, Spaces, StringAt,
         Recursive.ValueAt, Recursive.MemberValueAt, Recursive.MembersAt;
    var i := MembersParts(inp.text, from, end, l);
    var c := MemberParts(inp.text, from, i, l);
    var a, b := NamePlace(inp.text, from, c, l);
    Recursive.MembersGo(inp, a, count, log);
    if StringAt(inp.text, a).Text? {
      var log1 := log + [Key(StringAt(inp.text, a).s)];
      var a2, b2 := ElementPlace(inp.text, c + 1, i, l);
      ValueComplete(inp, a2, b2, log1, l);
      Recursive.MemberValueGo(inp, a2, count, log1);
      if i < end {
        MembersComplete(inp, i + 1, end, Inc(count), Recursive.ValueAt(inp, a2, log1).events, l);
      }
    }
  }

  /** The characters the grammar names, by their codes. */
  lemma GrammarCharacters(c: char)
    ensures var n := c as int;
            && (IsWs(c) <==> n == 0x20 || n == 0x09 || n == 0x0A || n == 0x0D)
            && (IsDigit(c) <==> 0x30 <= n <= 0x39)
            && (IsHex(c) <==> 0x30 <= n <= 0x39 || 0x41 <= n <= 0x46 || 0x61 <= n <= 0x66)
            && (IsUnescaped(c) <==> n == 0x20 || n == 0x21 || 0x23 <= n <= 0x5B || 0x5D <= n)
            && (IsEscaped(c) <==>
                n == 0x22 || n == 0x5C || n == 0x2F || n == 0x62 || n == 0x66 || n == 0x6E || n == 0x72 || n == 0x74)
  {}

  // ---------- documents ----------

  /** A text ends at its end or at a terminator. */
  predicate EndsAt(t: string, q: nat) {
    q <= |t| && Peek(t, q) == NUL
  }

  /** A text that is parsed is a JSON text up to where it ends. */
  lemma DocumentSound(inp: Input, l: Limits)
    requires l.overflows == inp.overflows
    requires Recursive.Document(inp).Done?
    ensures var q := Recursive.Document(inp).pos; EndsAt(inp.text, q) && IsElement(Span(inp.text, 0, q), l)
  {
    hide Span, IsElement, IsValue, IsSpace, Ws, Spaces, Recursive.ValueAt;
    var p := Ws(inp.text, 0);
    WsSpan(inp.text, 0);
    ValueSound(inp, p, [], l);
    var q := Recursive.ValueAt(inp, p, []).pos;
    WsSpan(inp.text, q);
    ElementSpan(inp.text, 0, p, q, Ws(inp.text, q), l);
  }

  /** A JSON text is parsed to its end, unless it is not within the limits. */
  lemma DocumentComplete(inp: Input, q: nat, l: Limits)
    requires l.overflows == inp.overflows
    requires EndsAt(inp.text, q) && IsElement(Span(inp.text, 0, q), l)
    ensures Accepts(Recursive.Document(inp), q, l)
  {
    hide Span, IsElement, IsValue, Ws, Spaces, Recursive.ValueAt;
    var a, b := ElementPlace(inp.text, 0, q, l);
    ValueComplete(inp, a, b, [], l);
  }

  /** A text without terminators is accepted exactly when it is a JSON text of RFC 8259 whose numbers are
      in range and whose escaped surrogates are paired. A JSON text that is refused is refused for what
      is wrong with it. */
  lemma AcceptsJson(inp: Input)
    requires NUL !in inp.text
    ensures Recursive.Document(inp).Done? <==> IsElement(inp.text, Limits(true, true, inp.overflows))
    ensures forall l: Limits :: l.overflows == inp.overflows && IsElement(inp.text, l) ==>
              Accepts(Recursive.Document(inp), |inp.text|, l)
    ensures Recursive.Document(inp).Done? ==> forall l: Limits :: l.overflows == inp.overflows ==> IsElement(inp.text, l)
  {
    hide IsElement, Recursive.Document;
    assert Span(inp.text, 0, |inp.text|) == inp.text;
    forall l: Limits | l.overflows == inp.overflows && IsElement(inp.text, l)
      ensures Accepts(Recursive.Document(inp), |inp.text|, l)
    {
      DocumentComplete(inp, |inp.text|, l);
    }
    forall l: Limits | l.overflows == inp.overflows && Recursive.Document(inp).Done?
      ensures IsElement(inp.text, l)
    {
      DocumentSound(inp, l);
    }
  }

  /** The number 0e309 is refused although its value is zero: it is the exponent that is limited. */
  lemma ZeroOutOfRange(inp: Input)
    requires inp.text == "0e309"
    ensures IsNumber(inp.text, Limits(false, false, inp.overflows)) && !InRange(inp.text, inp.overflows)
    ensures NumberAt(inp, 0) == Bad(NumberTooBig, 0)
  {
    hide InRange, HasNumberForm, Fits, Parts, IsUnsigned;
    var t := inp.text;
    DigitsEndIs(t, 2, 5);
    assert t[2] == '3' && t[3] == '0' && t[4] == '9';
    assert DigitsValue(t, 2, 3) == 3 && DigitsValue(t, 2, 4) == 30 && DigitsValue(t, 2, 5) == 309;
    UnsignedSpan(t, 0, 1, 1, 5);
    assert t[..5] == t == t[0..5];
    Signed(t, 0, 5);
    var from, b, c := FormParts(t, 0, 5);
    NumberParts(inp, 0, from, b, c, 5);
    RangeWithin(t, 0, from, b, c, 5, inp.overflows);
  }

  /** The three parsers accept the same texts with the same events: those of the grammar within the limits. */
  lemma EveryParserAcceptsJson(inp: Input)
    requires NUL !in inp.text
    ensures var r, i, p := Recursive.Document(inp), IterativeParser.Document(inp), PullParser.Document(inp);
            && (r.Done? <==> i.Done?) && (i.Done? <==> p.Done?)
            && (r.Done? <==> IsElement(inp.text, Limits(true, true, inp.overflows)))
            && (r.Done? ==> r == i == p)
  {
    hide IsElement, Recursive.Document, IterativeParser.Document, PullParser.Document;
    AcceptsJson(inp);
    ParserEquivalence.SameDocument(inp);
    PullParser.SameDocument(inp);
  }
}
