/** What a write to a file changes, and when the value written is read back. */
module EnvFileWrites {
  import opened JsonText
  import opened EnvFile
  import opened EnvFileLaws

  // ---------- writing ----------

  lemma {:induction false} LinesSplit(es: seq<Entry>, k: nat)
    requires k <= |es|
    ensures Lines(es) == Lines(es[..k]) + Lines(es[k..])
    decreases k
  {
    if k == 0 {
      assert es[..0] == [] && es[0..] == es;
    } else {
      LinesSplit(es[1..], k - 1);
      assert es[..k][0] == es[0] && es[..k][1..] == es[1..][..k - 1] && es[1..][k - 1..] == es[k..];
    }
  }

  /** What stands before the text of entry k. */
  function Front(es: seq<Entry>, k: nat): string
    requires k < |es|
  {
    Header() + Lines(es[..k]) + es[k].key + "="
  }

  /** A file around the text of one entry. */
  lemma FileAround(es: seq<Entry>, k: nat, text: string)
    requires k < |es|
    ensures File(es[k := Entry(es[k].key, text)]) == Front(es, k) + text + ([SEPARATOR] + ("\n" + Lines(es[k + 1..])))
  {
    var now := es[k := Entry(es[k].key, text)];
    LinesSplit(now, k);
    assert now[..k] == es[..k] && now[k..][0] == now[k] && now[k..][1..] == es[k + 1..];
    assert Lines(now[k..]) == Line(now[k]) + Lines(es[k + 1..]);
    hide Header, Lines;
    var rest := Lines(es[k + 1..]);
    LineAround(Header() + Lines(es[..k]), es[k].key, text, rest);
    assert Header() + (Lines(es[..k]) + (Line(now[k]) + rest)) == Header() + Lines(es[..k]) + (Line(now[k]) + rest);
  }

  lemma LineAround(front: string, key: string, text: string, rest: string)
    ensures front + (Line(Entry(key, text)) + rest) == front + key + "=" + text + ([SEPARATOR] + ("\n" + rest))
  {}

  /** What is replaced is the text behind the first occurrence of the key and one more character. */
  lemma WriteFirst(env: string, front: string, text: string, back: string, key: string, value: string)
    requires env == front + text + ([SEPARATOR] + back) && SEPARATOR !in text && |env| <= MAX_SIZE
    requires Find(env, key, 0) + |key| + 1 == |front|
    ensures WriteToken(env, key, value) == Written(front + value + ([SEPARATOR] + back), true)
  {
    Cut(front, text, back);
    TextEnd(text, back);
    hide Find;
  }

  /** The parts of a text around one of them. */
  lemma Cut(front: string, text: string, back: string)
    ensures var env := front + text + ([SEPARATOR] + back);
            env[..|front|] == front && env[|front|..] == text + ([SEPARATOR] + back) && env[|front| + |text|..] == [SEPARATOR] + back
  {}

  lemma TextEnd(text: string, back: string)
    requires SEPARATOR !in text
    ensures Find(text + ([SEPARATOR] + back), [SEPARATOR], 0) == |text|
  {
    var own := text + [SEPARATOR];
    NoSeparator(text);
    assert own <= text + ([SEPARATOR] + back) && own[0..][|text|] == SEPARATOR;
    hide Find;
    FindWithin(text + ([SEPARATOR] + back), own, SEPARATOR, 0);
  }

  /** Writing a key whose text first occurs at its own line replaces the text of its entry. */
  lemma WriteEntry(es: seq<Entry>, k: nat, value: string)
    requires k < |es| && |File(es)| <= MAX_SIZE && SEPARATOR !in es[k].text
    requires Find(File(es), es[k].key, 0) == Place(es, k)
    ensures WriteToken(File(es), es[k].key, value) == Written(File(es[k := Entry(es[k].key, value)]), true)
  {
    assert es[k := Entry(es[k].key, es[k].text)] == es;
    FileAround(es, k, es[k].text);
    FileAround(es, k, value);
    FrontIs(es, k);
    hide File, Lines, Find, WriteToken, Front, Place;
    WriteFirst(File(es), Front(es, k), es[k].text, "\n" + Lines(es[k + 1..]), es[k].key, value);
  }

  lemma FrontIs(es: seq<Entry>, k: nat)
    requires k < |es|
    ensures |Front(es, k)| == Place(es, k) + |es[k].key| + 1
  {}

  /** After a quoted value has been written to such a key, that key reads back the new value and every
      other key reads as before. */
  lemma WriteThenRead(es: seq<Entry>, k: nat, value: string, j: nat)
    requires WellKeyed(es) && k < |es| && j < |es| && |File(es)| + |value| + 2 <= MAX_SIZE
    requires SEPARATOR !in es[k].text && '\n' !in value && Find(File(es), es[k].key, 0) == Place(es, k)
    requires es[j].text != "" && es[j].text[0] != SEPARATOR
    ensures var w := WriteToken(File(es), es[k].key, Quoted(value));
            && w.Written? && w.found
            && ReadToken(w.env, es[j].key, false) ==
               if j == k then Token(ReadBack(Quoted(value), false)) else ReadToken(File(es), es[j].key, false)
  {
    var now := es[k := Entry(es[k].key, Quoted(value))];
    WriteEntry(es, k, Quoted(value));
    Rewritten(es, k, Quoted(value));
    hide File, Lines, Find, WriteToken, ReadToken, Place, WellKeyed, ReadBack;
    ReadEntry(es, j, false);
    ReadEntry(now, j, false);
  }

  lemma Rewritten(es: seq<Entry>, k: nat, text: string)
    requires WellKeyed(es) && k < |es| && '\n' !in text
    ensures WellKeyed(es[k := Entry(es[k].key, text)])
    ensures |File(es[k := Entry(es[k].key, text)])| <= |File(es)| + |text|
  {
    FileAround(es, k, text);
    FileAround(es, k, es[k].text);
    assert es[k := Entry(es[k].key, es[k].text)] == es;
    hide File, Lines;
    forall i, j | 0 <= i < |es| && 0 <= j < |es| && i != j ensures !(es[i].key <= es[j].key) {}
  }

  // ---------- a write behind an earlier occurrence ----------

  /** Keys are not empty, and separators only end lines. */
  predicate Separated(es: seq<Entry>) {
    && WellKeyed(es)
    && forall i | 0 <= i < |es| :: es[i].key != "" && SEPARATOR !in es[i].key && SEPARATOR !in es[i].text
  }

  lemma {:induction false} FindFirst(s: string, word: string, p: nat)
    requires p <= |s| < NPOS
    ensures forall i | p <= i <= |s| && Has(s, i, word) :: Find(s, word, p) <= i
    decreases |s| - p
  {
    if !Has(s, p, word) && p < |s| { FindFirst(s, word, p + 1); }
  }

  /** The separator of a line. */
  lemma LineEnd(env: string, p: nat, es: seq<Entry>)
    requires p <= |env| && es != [] && env[p..] == Lines(es) && Separated(es)
    ensures var x := p + |Line(es[0])| - 2;
            && p <= x && x + 2 <= |env| && env[x] == SEPARATOR && env[x + 1] == '\n'
            && (forall i | p <= i < x :: env[i] != SEPARATOR && env[i] != '\n')
            && env[x..] == [SEPARATOR] + ("\n" + Lines(es[1..])) && env[x + 2..] == Lines(es[1..]) && Separated(es[1..])
  {
    var line, x := Line(es[0]), p + |Line(es[0])| - 2;
    FirstLine(env, p, es);
    hide Lines, WellKeyed;
    var body := es[0].key + "=" + es[0].text;
    assert line == body + ([SEPARATOR] + "\n");
    assert forall i | p <= i < x :: env[i] == env[p..x + 2][i - p] == body[i - p];
    assert env[x] == env[p..x + 2][x - p] && env[x + 1] == env[p..x + 2][x + 1 - p];
    assert env[x..] == [env[x]] + ([env[x + 1]] + env[x + 2..]);
  }

  /** From a place no later than line k on, the first separator ends line k or an earlier one. */
  lemma {:induction false} NextSeparator(env: string, p: nat, es: seq<Entry>, k: nat, start: nat) returns (m: nat, x: nat)
    requires p <= |env| && env[p..] == Lines(es) && Separated(es) && k < |es|
    requires start <= p + |Lines(es[..k])| && forall i | start <= i < p :: env[i] != SEPARATOR
    ensures m <= k && start <= x <= |env| && env[x..] == [SEPARATOR] + ("\n" + Lines(es[m + 1..]))
    ensures forall i | start <= i < x :: env[i] != SEPARATOR
    decreases k
  {
    hide Line, Lines, Separated;
    LineEnd(env, p, es);
    var next := p + |Line(es[0])|;
    if start <= next - 2 {
      m, x := 0, next - 2;
    } else {
      NoLines(es);
      LinesFrom(es, k);
      m, x := NextSeparator(env, next, es[1..], k - 1, start);
      m := m + 1;
      assert es[1..][m..] == es[m + 1..];
    }
  }

  lemma NoLines(es: seq<Entry>)
    ensures |Lines(es[..0])| == 0
  {}

  /** Line breaks stand behind separators only. */
  lemma {:induction false} BreakBehind(env: string, p: nat, es: seq<Entry>)
    requires p <= |env| && env[p..] == Lines(es) && Separated(es)
    ensures forall i | p <= i < |env| && env[i] == '\n' :: p < i && env[i - 1] == SEPARATOR
    decreases |es|
  {
    hide Line, Separated;
    if es != [] {
      LineEnd(env, p, es);
      BreakBehind(env, p + |Line(es[0])|, es[1..]);
    }
  }

  lemma HasChars(s: string, p: nat, word: string)
    ensures Has(s, p, word) ==> forall i | p <= i < p + |word| :: s[i] == word[i - p]
  {
    if Has(s, p, word) {
      forall i | p <= i < p + |word| ensures s[i] == word[i - p] { assert s[i] == s[p..p + |word|][i - p]; }
    }
  }

  /** Where the text of the key first stands in the file. */
  function First(es: seq<Entry>, k: nat): nat
    requires k < |es|
  {
    Find(File(es), es[k].key, 0)
  }

  /** The key is written behind an earlier occurrence of its text. */
  predicate Strays(es: seq<Entry>, k: nat)
    requires k < |es|
  {
    Separated(es) && |File(es)| < MAX_SIZE && First(es, k) != Place(es, k)
  }

  /** The text stands no later than the line of the key. */
  lemma FirstAt(es: seq<Entry>, k: nat)
    requires Separated(es) && k < |es| && |File(es)| < MAX_SIZE
    ensures Place(es, k) <= |File(es)| && First(es, k) <= Place(es, k) && Has(File(es), First(es, k), es[k].key)
  {
    var env, key, p := File(es), es[k].key, Place(es, k);
    KeyFound(es, k);
    hide File, Place, Lines, Line;
    HasAfterBreak(env, p - 1, key);
    FindFirst(env, key, 0);
  }

  /** An earlier occurrence ends before the line break in front of the key's line. */
  lemma StraysBefore(es: seq<Entry>, k: nat)
    requires k < |es| && Strays(es, k)
    ensures First(es, k) + |es[k].key| + 1 <= Place(es, k) <= |File(es)| && Has(File(es), First(es, k), es[k].key)
    ensures es[k].key != "" && '\n' !in es[k].key && SEPARATOR !in es[k].key
    ensures |File(es)| < MAX_SIZE
  {
    var env, key, p, at := File(es), es[k].key, Place(es, k), First(es, k);
    KeyFound(es, k);
    FirstAt(es, k);
    hide File, Place, Lines, Line, First, Find;
    HasAfterBreak(env, p - 1, key);
    HasChars(env, at, key);
    assert Place(es, k) != First(es, k) && env[p - 1] == '\n';
  }

  /** A file after such a write: the rest of the line is lost, or the next line. */
  function Astray(es: seq<Entry>, k: nat, text: string, m: nat): string
    requires k < |es| && Strays(es, k) && First(es, k) + |es[k].key| + 1 <= |File(es)| && m < |es|
  {
    File(es)[..First(es, k) + |es[k].key| + 1] + text + ([SEPARATOR] + ("\n" + Lines(es[m + 1..])))
  }

  lemma WriteAstray(es: seq<Entry>, k: nat, text: string) returns (m: nat)
    requires k < |es| && Strays(es, k)
    ensures First(es, k) + |es[k].key| + 1 <= |File(es)| && m <= k
    ensures WriteToken(File(es), es[k].key, text) == Written(Astray(es, k, text, m), true)
    ensures |Astray(es, k, text, m)| <= |File(es)| + |text|
  {
    hide Strays, File, Place, Lines, Line, First, Find, WriteToken;
    var env, key := File(es), es[k].key;
    StraysBefore(es, k);
    var start := First(es, k) + |key| + 1;
    FileParts(es, k);
    var x;
    m, x := NextSeparator(env, 20, es, k, start);
    var back := "\n" + Lines(es[m + 1..]);
    assert env == env[..start] + env[start..x] + ([SEPARATOR] + back) by { assert env == env[..start] + env[start..x] + env[x..]; }
    FirstIs(es, k);
    WriteFirst(env, env[..start], env[start..x], back, key, text);
  }

  lemma FirstIs(es: seq<Entry>, k: nat)
    requires k < |es| && Strays(es, k)
    ensures Find(File(es), es[k].key, 0) == First(es, k) && |File(es)| < MAX_SIZE
  {}

  lemma FileParts(es: seq<Entry>, k: nat)
    requires k < |es| && Strays(es, k)
    ensures 20 <= |File(es)| && File(es)[20..] == Lines(es) && File(es)[..20] == Header()
    ensures Place(es, k) == 20 + |Lines(es[..k])| && Separated(es)
    ensures forall i | 0 <= i < 20 :: File(es)[i] != SEPARATOR && File(es)[i] != '"'
  {
    hide Header, Lines, Find;
    HeaderChars();
    forall i | 0 <= i < 20 ensures File(es)[i] == Header()[i] {}
  }

  lemma HeaderChars()
    ensures forall i | 0 <= i < 20 :: Header()[i] != SEPARATOR && Header()[i] != '"'
  {}

  /** In the part that is kept and in the text that is written the key stands behind no line break. */
  lemma NoneBefore(es: seq<Entry>, k: nat, value: string, m: nat)
    requires k < |es| && Strays(es, k) && First(es, k) + |es[k].key| + 1 <= |File(es)| && m < |es|
    requires '\n' !in value
    ensures var now, end := Astray(es, k, Quoted(value), m), First(es, k) + |es[k].key| + 1 + |Quoted(value)| + 1;
            end < |now| && now[end] == '\n' && now[end + 1..] == Lines(es[m + 1..])
            && forall i | 0 <= i < end :: !Has(now, i, "\n" + es[k].key)
  {
    hide Strays, File, Place, Lines, Line, First, Find;
    var now, start := Astray(es, k, Quoted(value), m), First(es, k) + |es[k].key| + 1;
    var end := start + |Quoted(value)| + 1;
    assert forall i | start <= i < end :: now[i] != '\n';
    forall i | 0 <= i < end ensures !Has(now, i, "\n" + es[k].key) {
      HasAfterBreak(now, i, es[k].key);
      if i < start && now[i] == '\n' {
        assert now[..start] == File(es)[..start] && now[start] == '"';
        NotBefore(es, k, now, i);
      }
    }
  }

  lemma NotBefore(es: seq<Entry>, k: nat, now: string, i: nat)
    requires k < |es| && Strays(es, k)
    requires var start := First(es, k) + |es[k].key| + 1;
             start <= |File(es)| && start < |now| && now[..start] == File(es)[..start] && now[start] == '"' && i < start
    requires now[i] == '\n'
    ensures !Has(now, i + 1, es[k].key)
  {
    hide Strays, File, Place, Lines, Line, First, Find, Has;
    var env, key, at := File(es), es[k].key, First(es, k);
    StraysBefore(es, k);
    var start := at + |key| + 1;
    assert env[i] == env[..start][i] == now[..start][i];
    HasChars(env, at, key);
    HasChars(now, i + 1, key);
    if i + 1 + |key| <= start {
      SameBreak(env, now, start, i, key);
      FirstBreak(es, k, i);
    } else {
      FileParts(es, k);
      BreakBehind(env, 20, es);
      assert env[at] == key[0] && env[at + |key| - 1] == key[|key| - 1];
      assert i == at + |key|;
    }
  }

  /** A break and a key within the part that is kept stand in the file as well. */
  lemma SameBreak(env: string, now: string, start: nat, i: nat, key: string)
    requires start <= |env| && start <= |now| && env[..start] == now[..start] && i + 1 + |key| <= start && now[i] == '\n'
    ensures Has(now, i + 1, key) ==> Has(env, i, "\n" + key)
  {
    assert forall j | 0 <= j < start :: env[j] == env[..start][j] == now[..start][j] == now[j];
    HasChars(now, i + 1, key);
    if Has(now, i + 1, key) {
      assert env[i + 1..i + 1 + |key|] == key;
      BreakAndKey(env, i, key);
    }
  }

  lemma FirstBreak(es: seq<Entry>, k: nat, i: nat)
    requires k < |es| && Strays(es, k) && i <= First(es, k)
    ensures Has(File(es), i, "\n" + es[k].key) ==> i == First(es, k)
  {
    KeyFound(es, k);
    StraysBefore(es, k);
    hide File, Place, Lines, Line, First, Find;
    FindFirst(File(es), "\n" + es[k].key, 0);
  }

  /** After a write astray the key reads what it read before, or nothing if its own line was lost. */
  lemma AstrayRead(es: seq<Entry>, k: nat, value: string, m: nat)
    requires k < |es| && Strays(es, k) && First(es, k) + |es[k].key| + 1 <= |File(es)| && m <= k
    requires '\n' !in value && |Astray(es, k, Quoted(value), m)| <= MAX_SIZE
    ensures ReadToken(Astray(es, k, Quoted(value), m), es[k].key, false)
            == if m == k then Token("") else ReadToken(File(es), es[k].key, false)
  {
    hide Strays, File, Place, Lines, Line, First, Find, ReadToken, Astray, Rest;
    var now, key := Astray(es, k, Quoted(value), m), es[k].key;
    var end := First(es, k) + |key| + 1 + |Quoted(value)| + 1;
    NoneBefore(es, k, value, m);
    FindSkip(now, "\n" + key, 0, end);
    FileParts(es, k);
    StraysBefore(es, k);
    RestSeparated(es, m + 1);
    if m == k {
      AfterUnlike(es, k);
      NotInLines(now, end + 1, es[k + 1..], key);
      NothingRead(now, key);
    } else {
      assert es[m + 1..][k - m - 1] == es[k] && es[m + 1..][k - m - 1..] == es[k..];
      FindLine(now, end + 1, es[m + 1..], k - m - 1);
      var q := end + 1 + |Lines(es[m + 1..][..k - m - 1])|;
      LineText(now, q, es, k);
      ReadAt(now, key, q - 1, Rest(es, k), false);
      ReadOwn(es, k);
    }
  }

  lemma NothingRead(env: string, key: string)
    requires Find(env, "\n" + key, 0) == NPOS
    ensures ReadToken(env, key, false) == Token("")
  {}

  lemma RestSeparated(es: seq<Entry>, m: nat)
    requires Separated(es) && m <= |es|
    ensures Separated(es[m..])
  {}

  lemma AfterUnlike(es: seq<Entry>, k: nat)
    requires Separated(es) && k < |es|
    ensures es[k].key != "" && forall e | e in es[k + 1..] :: Unlike(e.key, es[k].key)
  {}

  lemma ReadOwn(es: seq<Entry>, k: nat)
    requires WellKeyed(es) && k < |es| && |File(es)| <= MAX_SIZE
    ensures var rest := Rest(es, k);
            ReadToken(File(es), es[k].key, false) == Token(Finish(Take(rest, Less1(Find(rest, [SEPARATOR], 0))), false))
  {
    KeyFound(es, k);
    TextFits(es, k);
    hide File, Place, Lines, Line, Find, ReadToken, Rest;
    ReadAt(File(es), es[k].key, Place(es, k) - 1, Rest(es, k), false);
  }

  /** A write to a key whose text first occurs at its own line, whatever the value contains. */
  lemma OwnRead(es: seq<Entry>, k: nat, text: string)
    requires Separated(es) && k < |es| && |File(es)| < MAX_SIZE && First(es, k) == Place(es, k)
    requires text != "" && text[0] != SEPARATOR && |File(es)| + |text| <= MAX_SIZE
    ensures var w := WriteToken(File(es), es[k].key, text);
            w.Written? && w.found && ReadToken(w.env, es[k].key, false) == Token(ReadBack(text, false))
  {
    hide File, Place, Lines, Line, First, Find, ReadToken, WriteToken, Rest, ReadBack, Front;
    var now, key, p := File(es[k := Entry(es[k].key, text)]), es[k].key, Place(es, k);
    WriteOwn(es, k, text);
    var rest := text + ([SEPARATOR] + ("\n" + Lines(es[k + 1..])));
    FrontKept(es, k, now, rest);
    assert now[p - 1 + |key| + 2..] == rest;
    ReadAt(now, key, p - 1, rest, false);
    TextRead(text, rest);
    ReadBackIs(text, false);
  }

  lemma WriteOwn(es: seq<Entry>, k: nat, text: string)
    requires Separated(es) && k < |es| && |File(es)| < MAX_SIZE && First(es, k) == Place(es, k)
    ensures var now := File(es[k := Entry(es[k].key, text)]);
            && WriteToken(File(es), es[k].key, text) == Written(now, true)
            && now == Front(es, k) + text + ([SEPARATOR] + ("\n" + Lines(es[k + 1..])))
            && |now| <= |File(es)| + |text|
  {
    hide File, Place, Lines, Line, Find, WriteToken, Front;
    assert es[k := Entry(es[k].key, es[k].text)] == es;
    FileAround(es, k, text);
    FileAround(es, k, es[k].text);
    WriteEntry(es, k, text);
  }

  /** The key is still found at its line if the file up to its text is kept. */
  lemma FrontKept(es: seq<Entry>, k: nat, now: string, rest: string)
    requires Separated(es) && k < |es| && |File(es)| < MAX_SIZE && now == Front(es, k) + rest
    ensures 0 < Place(es, k) && Place(es, k) + |es[k].key| + 1 == |Front(es, k)|
    ensures Find(now, "\n" + es[k].key, 0) == Place(es, k) - 1
  {
    hide File, Place, Lines, Line, Find, Front, Has;
    var env, key, p, front := File(es), es[k].key, Place(es, k), Front(es, k);
    KeyFound(es, k);
    FrontIs(es, k);
    FileAround(es, k, es[k].text);
    assert es[k := Entry(es[k].key, es[k].text)] == es;
    TextFits(es, k);
    FindFirst(env, "\n" + key, 0);
    forall i | 0 <= i < |front| - |key| ensures Has(now, i, "\n" + key) <==> Has(env, i, "\n" + key) {
      SameWithin(env, now, front, i, "\n" + key);
    }
    FindSkip(now, "\n" + key, 0, p - 1);
    FoundNow(now, "\n" + key, p - 1);
  }

  lemma SameWithin(env: string, now: string, front: string, i: nat, word: string)
    requires front <= env && front <= now && i + |word| <= |front|
    ensures Has(env, i, word) <==> Has(now, i, word)
  {
    assert env[i..i + |word|] == front[i..i + |word|] == now[i..i + |word|];
  }

  lemma FoundNow(s: string, word: string, p: nat)
    requires p <= |s| && Has(s, p, word)
    ensures Find(s, word, p) == p
  {}

  /** A value is written in quotes to a key and read back. */
  predicate ReadsBack(es: seq<Entry>, k: nat, v: string)
    requires k < |es|
  {
    var w := WriteToken(File(es), es[k].key, Quoted(v));
    w.Written? && w.found && ReadToken(w.env, es[k].key, false) == Token(v)
  }

  /** Every value that can survive is read back after it has been written to a key, if and only if
      the key's text occurs nowhere in front of its line. */
  lemma WriteReadBack(es: seq<Entry>, k: nat)
    requires Separated(es) && k < |es| && |File(es)| + 3 <= MAX_SIZE
    ensures First(es, k) == Place(es, k) <==>
            forall v | Survives(v) && |File(es)| + |v| + 2 <= MAX_SIZE :: ReadsBack(es, k, v)
  {
    hide File, Place, Lines, Line, First, Find, ReadToken, WriteToken, ReadsBack, ReadBack, Survives, Strays;
    if First(es, k) == Place(es, k) {
      forall v | Survives(v) && |File(es)| + |v| + 2 <= MAX_SIZE ensures ReadsBack(es, k, v) {
        OwnReadsBack(es, k, v);
      }
    } else {
      OneOf(es, k);
    }
  }

  lemma OwnReadsBack(es: seq<Entry>, k: nat, v: string)
    requires Separated(es) && k < |es| && |File(es)| < MAX_SIZE && First(es, k) == Place(es, k)
    requires Survives(v) && |File(es)| + |v| + 2 <= MAX_SIZE
    ensures ReadsBack(es, k, v)
  {
    hide File, Place, Lines, Line, First, Find, ReadToken, WriteToken, ReadBack, Survives;
    OwnRead(es, k, Quoted(v));
    ValueSurvives(v);
  }

  /** The reading after a write astray does not depend on the value: one of two values is lost. */
  lemma OneOf(es: seq<Entry>, k: nat)
    requires Separated(es) && k < |es| && |File(es)| + 3 <= MAX_SIZE && First(es, k) != Place(es, k)
    ensures Survives("a") && Survives("b") && (!ReadsBack(es, k, "a") || !ReadsBack(es, k, "b"))
  {
    hide File, Place, Lines, Line, First, Find, ReadToken, WriteToken, Astray;
    var m := WriteAstray(es, k, Quoted("a"));
    AstrayRead(es, k, "a", m);
    var n := WriteAstray(es, k, Quoted("b"));
    AstrayRead(es, k, "b", n);
  }

  // ---------- a key that is missing ----------

  /** A key whose text stands nowhere is not written, and one that stands behind no line break reads as
      nothing. Without a separator behind the key nothing is written either. */
  lemma Missing(env: string, key: string, value: string, json: bool)
    requires |env| <= MAX_SIZE
    ensures (forall i | 0 <= i <= |env| :: !Has(env, i, key)) ==> WriteToken(env, key, value) == Written(env, false)
    ensures (forall i | 0 <= i <= |env| :: !Has(env, i, "\n" + key)) ==> ReadToken(env, key, json) == Token("")
    ensures SEPARATOR !in env && WriteToken(env, key, value).Written? ==> WriteToken(env, key, value) == Written(env, false)
  {
    hide TrimOne, Sanitize;
    if forall i | 0 <= i <= |env| :: !Has(env, i, key) { Nowhere(env, key); }
    if forall i | 0 <= i <= |env| :: !Has(env, i, "\n" + key) { Nowhere(env, "\n" + key); }
    var at := Find(env, key, 0);
    if SEPARATOR !in env && at != NPOS && at + |key| + 1 <= |env| {
      var rest := env[at + |key| + 1..];
      forall i | 0 <= i <= |rest| ensures !Has(rest, i, [SEPARATOR]) {
        HasChar(rest, i, SEPARATOR);
        if i < |rest| { assert rest[i] == env[at + |key| + 1 + i]; }
      }
      Nowhere(rest, [SEPARATOR]);
    }
  }

  lemma Nowhere(s: string, word: string)
    requires forall i | 0 <= i <= |s| :: !Has(s, i, word)
    ensures Find(s, word, 0) == NPOS
  {
    FindSkip(s, word, 0, |s|);
  }

  /** The file of one entry, and of one entry more. */
  lemma FileText(es: seq<Entry>, e: Entry)
    ensures File([]) == "#!/usr/bin/env bash\n"
    ensures File(es + [e]) == File(es) + e.key + "=" + e.text + [0x1F as char] + "\n"
  {
    hide Header;
    LinesSplit(es + [e], |es|);
    assert (es + [e])[..|es|] == es && (es + [e])[|es|..] == [e] && [e][1..] == [];
    assert Lines([e]) == Line(e);
    HeaderText();
    assert File(es + [e]) == Header() + Lines(es) + Line(e);
  }

  lemma HeaderText()
    ensures Header() == "#!/usr/bin/env bash\n"
  {}

  // ---------- a write that goes astray ----------

  lemma HasFirst(s: string, i: nat, word: string)
    requires Has(s, i, word) && word != ""
    ensures s[i] == word[0]
  {
    assert s[i] == s[i..i + |word|][0];
  }

  lemma FirstIn(front: string, word: string, back: string)
    requires word != "" && word[0] !in front
    ensures Find(front + word + back, word, 0) == |front|
  {
    var s := front + word + back;
    forall i | 0 <= i < |front| ensures !Has(s, i, word) {
      assert s[i] == front[i] && front[i] in front;
      if Has(s, i, word) { HasFirst(s, i, word); }
    }
    FindSkip(s, word, 0, |front|);
    assert s[|front|..|front| + |word|] == word;
  }

  /** A key whose text occurs earlier, as "env" does in the first line, is lost by the write. */
  lemma EarlierOccurrence()
    ensures var es := [Entry("env", Quoted("a"))]; var w := WriteToken(File(es), "env", Quoted("b"));
            && ReadToken(File(es), "env", false) == Token("a")
            && w.Written? && w.found && ReadToken(w.env, "env", false) == Token("")
  {
    var es := [Entry("env", Quoted("a"))];
    ReadEntryA(es);
    FirstInHeader(es);
    hide File, ReadToken, WriteToken, Find, Astray, Quoted;
    var m := WriteAstray(es, 0, Quoted("b"));
    AstrayRead(es, 0, "b", m);
  }

  lemma FirstInHeader(es: seq<Entry>)
    requires es == [Entry("env", Quoted("a"))]
    ensures Find(File(es), "env", 0) == 11 && Strays(es, 0) && |File(es)| == 29 && |Quoted("b")| == 3
  {
    OneLineFile(es);
    hide File, Find, Quoted;
    assert File(es) == "#!/usr/bin/" + "env" + ([' '] + "bash\nenv=\"a\"" + ([SEPARATOR] + "\n"));
    FirstIn("#!/usr/bin/", "env", [' '] + "bash\nenv=\"a\"" + ([SEPARATOR] + "\n"));
  }

  lemma ReadEntryA(es: seq<Entry>)
    requires es == [Entry("env", Quoted("a"))]
    ensures ReadToken(File(es), "env", false) == Token("a")
  {
    OneLineFile(es);
    hide File, ReadToken, Find, ReadBack;
    ReadEntry(es, 0, false);
    ValueSurvives("a");
  }

  lemma OneLineFile(es: seq<Entry>)
    requires es == [Entry("env", Quoted("a"))]
    ensures File(es) == "#!/usr/bin/" + "env" + [' '] + "bash\nenv=\"a\"" + ([SEPARATOR] + "\n") && |File(es)| == 29
    ensures WellKeyed(es)
  {
    assert es[1..] == [];
    assert Lines(es) == Line(es[0]);
  }
}
