/** What is read back from a created file. */
module EnvFileLaws {
  import opened JsonText
  import opened EnvFile

  lemma {:induction false} FindWithin(s: string, t: string, c: char, p: nat)
    requires t <= s && p <= |t| && c in t[p..]
    ensures Find(s, [c], p) == Find(t, [c], p) < |t| && p <= Find(t, [c], p)
    decreases |t| - p
  {
    if Has(t, p, [c]) {
      assert s[p..p + 1] == t[p..p + 1];
    } else {
      assert t[p] != c by { assert t[p..p + 1] == [t[p]]; }
      assert t[p..] == [t[p]] + t[p + 1..];
      assert s[p..p + 1] == t[p..p + 1];
      FindWithin(s, t, c, p + 1);
    }
  }

  /** What is read of the text of an entry: all before its first separator but the last character. */
  function ReadBack(text: string, json: bool): string
    requires text != "" && text[0] != SEPARATOR
  {
    Finish(Take(text, Less1(Find(text + [SEPARATOR], [SEPARATOR], 0))), json)
  }

  /** Where the line of entry k starts. */
  function Place(es: seq<Entry>, k: nat): nat
    requires k < |es|
  {
    |Header()| + |Lines(es[..k])|
  }

  /** What follows the '=' of entry k in the file. */
  function Rest(es: seq<Entry>, k: nat): (r: string)
    requires k < |es|
    ensures es[k].text + [SEPARATOR] <= r
  {
    es[k].text + [SEPARATOR] + ("\n" + Lines(es[k + 1..]))
  }

  /** The search for a key finds its line. */
  lemma KeyFound(es: seq<Entry>, k: nat)
    requires WellKeyed(es) && k < |es|
    ensures var p := Place(es, k); var q := p + |es[k].key| + 1;
            && q < |File(es)| && Find(File(es), "\n" + es[k].key, 0) == p - 1
            && File(es)[q..] == Rest(es, k)
            && File(es)[p..] == Lines(es[k..])
  {
    hide Header;
    var env, p := File(es), Place(es, k);
    forall i | 0 <= i < 20 ensures env[i] == Header()[i] {}
    assert env[20..] == Lines(es);
    FindLine(env, 20, es, k);
    LineText(env, p, es, k);
    hide Find, Line, Lines, WellKeyed, Has;
    forall i | 0 <= i < 19 ensures !Has(env, i, "\n" + es[k].key) { HasAfterBreak(env, i, es[k].key); }
    FindSkip(env, "\n" + es[k].key, 0, 19);
  }

  lemma LineText(env: string, p: nat, es: seq<Entry>, k: nat)
    requires p <= |env| && k < |es| && env[p..] == Lines(es[k..])
    ensures var q := p + |es[k].key| + 1;
            q < |env| && env[q..] == Rest(es, k)
  {
    assert es[k..][0] == es[k] && es[k..][1..] == es[k + 1..];
    assert env[p..] == es[k].key + "=" + Rest(es, k);
    assert env[p + |es[k].key| + 1..] == env[p..][|es[k].key| + 1..];
  }

  lemma ReadAt(env: string, key: string, start: nat, rest: string, json: bool)
    requires Find(env, "\n" + key, 0) == start < NPOS && start + |key| + 2 <= |env| && rest == env[start + |key| + 2..]
    ensures ReadToken(env, key, json) == Token(Finish(Take(rest, Less1(Find(rest, [SEPARATOR], 0))), json))
  {
    hide Find, Take, Less1, Finish;
  }

  lemma HasChar(s: string, i: nat, c: char)
    ensures Has(s, i, [c]) <==> i < |s| && s[i] == c
  {
    if i < |s| { assert s[i..i + 1] == [s[i]]; }
  }

  /** What is read of a text does not depend on what follows its separator. */
  lemma TextRead(text: string, rest: string)
    requires text + [SEPARATOR] <= rest && |text| < MAX_SIZE && text != "" && text[0] != SEPARATOR
    ensures Take(rest, Less1(Find(rest, [SEPARATOR], 0))) == Take(text, Less1(Find(text + [SEPARATOR], [SEPARATOR], 0)))
  {
    var own := text + [SEPARATOR];
    assert own[0..][|text|] == SEPARATOR;
    FindWithin(rest, own, SEPARATOR, 0);
    HasChar(own, 0, SEPARATOR);
    assert own[0] == text[0];
    var e := Find(own, [SEPARATOR], 0);
    assert rest[..e - 1] == text[..e - 1];
  }

  /** Reading a key gives what its own entry says, whatever the other entries are. */
  lemma ReadEntry(es: seq<Entry>, k: nat, json: bool)
    requires WellKeyed(es) && k < |es| && |File(es)| <= MAX_SIZE
    requires es[k].text != "" && es[k].text[0] != SEPARATOR
    ensures ReadToken(File(es), es[k].key, json) == Token(ReadBack(es[k].text, json))
  {
    KeyFound(es, k);
    hide File, Lines, Find, Place, ReadToken, Rest, ReadBack, Finish;
    TextFits(es, k);
    ReadAt(File(es), es[k].key, Place(es, k) - 1, Rest(es, k), json);
    TextRead(es[k].text, Rest(es, k));
    ReadBackIs(es[k].text, json);
  }

  lemma TextFits(es: seq<Entry>, k: nat)
    requires WellKeyed(es) && k < |es|
    ensures |es[k].text| < |File(es)| && Place(es, k) <= |File(es)|
  {
    KeyFound(es, k);
    hide File, Lines, Find, Place;
    assert |File(es)[Place(es, k) + |es[k].key| + 1..]| == |Rest(es, k)|;
  }

  lemma ReadBackIs(text: string, json: bool)
    requires text != "" && text[0] != SEPARATOR
    ensures ReadBack(text, json) == Finish(Take(text, Less1(Find(text + [SEPARATOR], [SEPARATOR], 0))), json)
  {}

  /** The text of an emptied entry starts with the separator: then the whole rest of the file is read. */
  lemma ReadEmptied(es: seq<Entry>, k: nat, json: bool)
    requires WellKeyed(es) && k < |es| && |File(es)| <= MAX_SIZE && es[k].text == ""
    ensures ReadToken(File(es), es[k].key, json) == Token(Finish(Rest(es, k), json))
  {
    var rest := Rest(es, k);
    KeyFound(es, k);
    TextFits(es, k);
    assert rest[0] == (es[k].text + [SEPARATOR])[0];
    HasChar(rest, 0, SEPARATOR);
    assert Find(rest, [SEPARATOR], 0) == 0;
    hide File, Lines, Find, Place, ReadToken, Rest;
    ReadAt(File(es), es[k].key, Place(es, k) - 1, rest, json);
    assert Take(rest, Less1(0)) == rest by { assert |rest| <= |File(es)|; }
  }

  // ---------- exactly the values that survive ----------

  lemma {:induction false} QuotesRemoved(s: string)
    ensures |RemoveQuotes(s)| <= |s|
    ensures RemoveQuotes(s) == s <==> '"' !in s
    ensures '"' in s ==> |RemoveQuotes(s)| < |s|
  {
    if s != "" {
      QuotesRemoved(s[1..]);
      assert s == [s[0]] + s[1..];
    }
  }

  lemma NoSeparator(s: string)
    requires SEPARATOR !in s
    ensures Find(s + [SEPARATOR], [SEPARATOR], 0) == |s|
  {
    var t := s + [SEPARATOR];
    forall i | 0 <= i < |s| ensures !Has(t, i, [SEPARATOR]) { HasChar(t, i, SEPARATOR); }
    FindSkip(t, [SEPARATOR], 0, |s|);
    assert t[|s|..|s| + 1] == [SEPARATOR];
  }

  /** The text read of a quoted value: the opening quote and the value up to a separator in it. */
  lemma QuotedRaw(v: string)
    requires |v| < MAX_SIZE
    ensures var raw := Take(Quoted(v), Less1(Find(Quoted(v) + [SEPARATOR], [SEPARATOR], 0)));
            && (SEPARATOR !in v ==> raw == "\"" + v)
            && (SEPARATOR in v ==> |raw| <= |v| && (raw == "" || raw[0] == '"'))
  {
    var q := Quoted(v);
    if SEPARATOR in v {
      var i :| 0 <= i < |v| && v[i] == SEPARATOR;
      assert ("\"" + v)[i + 1] == SEPARATOR;
      assert SEPARATOR in "\"" + v;
      assert ("\"" + v)[0..] == "\"" + v;
      FindWithin(q + [SEPARATOR], "\"" + v, SEPARATOR, 0);
    } else {
      NoSeparator(q);
    }
  }

  lemma Trimmed(s: string, c: char)
    ensures |TrimOne(s, c)| <= |s|
    ensures TrimOne(s, c) == s <==> s == "" || (s[0] != c && s[|s| - 1] != c)
  {}

  /** No quote, no separator and no outer space. */
  predicate Survives(v: string) {
    '"' !in v && SEPARATOR !in v && (v == "" || (v[0] != ' ' && v[|v| - 1] != ' '))
  }

  /** A value that was stored in quotes is read back unchanged exactly when it contains no quote and
      no separator and neither begins nor ends with a space. */
  lemma ValueSurvives(v: string)
    requires |v| < MAX_SIZE
    ensures ReadBack(Quoted(v), false) == v <==> Survives(v)
  {
    QuotedRaw(v);
    var raw := Take(Quoted(v), Less1(Find(Quoted(v) + [SEPARATOR], [SEPARATOR], 0)));
    if raw != "" {
      assert raw[0] == '"';
      QuotesRemoved(raw);
      QuotesRemoved(v);
      assert raw == [raw[0]] + raw[1..];
      assert RemoveQuotes(raw) == RemoveQuotes(raw[1..]);
      QuotesRemoved(raw[1..]);
      Trimmed(RemoveQuotes(raw), ' ');
      if SEPARATOR !in v { assert raw[1..] == v; }
    }
  }

  /** Read as JSON, it is read back unchanged exactly when it contains no separator and does not end
      with a quote. */
  lemma JsonSurvives(v: string)
    requires |v| < MAX_SIZE
    ensures ReadBack(Quoted(v), true) == v <==> SEPARATOR !in v && (v == "" || v[|v| - 1] != '"')
  {
    QuotedRaw(v);
    var raw := Take(Quoted(v), Less1(Find(Quoted(v) + [SEPARATOR], [SEPARATOR], 0)));
    if SEPARATOR !in v { assert raw[1..] == v; }
  }

  /** Of the spaces at either end of a value one is lost, of the quotes behind a JSON text one. */
  lemma OuterLost(v: string)
    requires SEPARATOR !in v && |v| + 2 < MAX_SIZE
    ensures '"' !in v ==> ReadBack(Quoted(" " + v + " "), false) == v
    ensures '"' !in v && (v == "" || v[|v| - 1] != ' ') ==> ReadBack(Quoted(" " + v), false) == v
    ensures '"' !in v && (v == "" || v[0] != ' ') ==> ReadBack(Quoted(v + " "), false) == v
    ensures ReadBack(Quoted(v + "\""), true) == v
  {
    OuterTrimmed(v, ' ');
    OuterTrimmed(v, '"');
    hide TrimOne, RemoveQuotes, ReadBack;
    QuotedReads(" " + v + " ");
    QuotedReads(" " + v);
    QuotedReads(v + " ");
    QuotedReads(v + "\"");
    assert ['"'] + (v + "\"") == ['"'] + v + ['"'];
    assert " " + v + " " == [' '] + v + [' '] && " " + v == [' '] + v && v + " " == v + [' '];
  }

  lemma OuterTrimmed(v: string, c: char)
    ensures TrimOne([c] + v + [c], c) == v
    ensures v == "" || v[|v| - 1] != c ==> TrimOne([c] + v, c) == v
    ensures v == "" || v[0] != c ==> TrimOne(v + [c], c) == v
  {
    assert ([c] + v + [c])[1..] == v + [c] && (v + [c])[..|v|] == v && ([c] + v)[1..] == v;
    if v == "" { assert v + [c] == [c]; }
  }

  lemma QuotedReads(v: string)
    requires SEPARATOR !in v && |v| < MAX_SIZE
    ensures ReadBack(Quoted(v), true) == TrimOne(['"'] + v, '"')
    ensures '"' !in v ==> ReadBack(Quoted(v), false) == TrimOne(v, ' ')
  {
    hide TrimOne;
    QuotedRaw(v);
    var raw := "\"" + v;
    assert raw[1..] == v && RemoveQuotes(raw) == RemoveQuotes(raw[1..]);
    QuotesRemoved(v);
  }

  /** A token written without quotes loses its last character. */
  lemma UnquotedLosesLast(w: string)
    requires w != "" && SEPARATOR !in w && |w| < MAX_SIZE
    ensures w[0] != SEPARATOR && ReadBack(w, false) == Finish(w[..|w| - 1], false)
    ensures |ReadBack(w, false)| < |w|
  {
    NoSeparator(w);
    var raw := w[..|w| - 1];
    QuotesRemoved(raw);
    Trimmed(RemoveQuotes(raw), ' ');
  }
}
