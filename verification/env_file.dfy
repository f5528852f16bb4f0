/** A token store in one text: a line for each key, whose value ends at a separator. Positions are
    64-bit and wrap. */
module EnvFile {
  import opened Widths
  import opened JsonText

  const SEPARATOR: char := '\U{1f}'
  const NPOS: nat := TWO_64 - 1
  /** No text is longer than this. */
  const MAX_SIZE: nat := 0x7FFF_FFFF_FFFF_FFFF

  /** The first place at or after p where the word stands. */
  function Find(s: string, word: string, p: nat): (i: nat)
    requires p <= |s|
    ensures i == NPOS || (p <= i && Has(s, i, word))
    decreases |s| - p
  {
    if Has(s, p, word) then p
    else if p == |s| then NPOS
    else Find(s, word, p + 1)
  }

  function Less1(n: nat): (m: nat)
    ensures 0 < n < TWO_64 ==> m == n - 1
    ensures n == 0 ==> m == NPOS
  {
    (n + TWO_64 - 1) % TWO_64
  }

  /** At most n characters from the start. */
  function Take(s: string, n: nat): string {
    if n <= |s| then s[..n] else s
  }

  // ---------- tokens ----------

  function RemoveQuotes(s: string): string {
    if s == "" then "" else (if s[0] == '"' then "" else [s[0]]) + RemoveQuotes(s[1..])
  }

  /** Takes away one character c at either end. */
  function TrimOne(s: string, c: char): string {
    var t := if s != "" && s[0] == c then s[1..] else s;
    if t != "" && t[|t| - 1] == c then t[..|t| - 1] else t
  }

  function Sanitize(s: string): string {
    TrimOne(RemoveQuotes(s), ' ')
  }

  function Finish(raw: string, json: bool): string {
    if raw == "" then "" else if json then TrimOne(raw, '"') else Sanitize(raw)
  }

  datatype Reading = Token(value: string) | OutOfRange

  /** The text behind '\n', the key and one more character, up to one character before the separator. */
  function ReadToken(env: string, key: string, json: bool): Reading {
    var start := Find(env, "\n" + key, 0);
    if env == "" || start == NPOS then Token("")
    else if start + |key| + 2 > |env| then OutOfRange
    else
      var rest := env[start + |key| + 2..];
      Token(Finish(Take(rest, Less1(Find(rest, [SEPARATOR], 0))), json))
  }

  datatype Writing = Written(env: string, found: bool) | WriteOutOfRange

  /** The text behind the key and one more character, up to the separator, is replaced. */
  function WriteToken(env: string, key: string, value: string): Writing {
    var at := Find(env, key, 0);
    if env == "" || at == NPOS then Written(env, false)
    else
      var start := at + |key| + 1;
      if start > |env| then WriteOutOfRange
      else
        var end := Find(env[start..], [SEPARATOR], 0);
        if end == NPOS then Written(env, false)
        else Written(env[..start] + value + env[start + end..], true)
  }

  // ---------- files ----------

  function Header(): (h: string)
    ensures |h| == 20 && h[19] == '\n' && forall i | 0 <= i < 19 :: h[i] != '\n'
  {
    "#!/usr/bin/env bash\n"
  }

  /** A key and the text between '=' and the separator. */
  datatype Entry = Entry(key: string, text: string)

  function Line(e: Entry): string {
    e.key + "=" + e.text + [SEPARATOR] + "\n"
  }

  function Lines(es: seq<Entry>): string {
    if es == [] then "" else Line(es[0]) + Lines(es[1..])
  }

  function File(es: seq<Entry>): string {
    Header() + Lines(es)
  }

  function Quoted(value: string): string {
    "\"" + value + "\""
  }

  /** No key begins with another, and no line breaks in two. */
  predicate WellKeyed(es: seq<Entry>) {
    && (forall i | 0 <= i < |es| :: '\n' !in es[i].key && '\n' !in es[i].text)
    && (forall i, j | 0 <= i < |es| && 0 <= j < |es| && i != j :: !(es[i].key <= es[j].key))
  }

  // ---------- searching ----------

  lemma {:induction false} FindSkip(s: string, word: string, p: nat, q: nat)
    requires p <= q <= |s| && forall i | p <= i < q :: !Has(s, i, word)
    ensures Find(s, word, p) == Find(s, word, q)
    decreases q - p
  {
    if p < q { FindSkip(s, word, p + 1, q); }
  }

  /** What stands within a text stands in the text with something behind it. */
  lemma HasPrefix(s: string, p: nat, a: string, b: string)
    requires Has(s, p, a) && Has(s, p, b) && |a| <= |b|
    ensures a <= b
  {
    assert s[p..p + |a|] == s[p..p + |b|][..|a|];
  }

  lemma HasAfterBreak(s: string, p: nat, key: string)
    ensures Has(s, p, "\n" + key) ==> s[p] == '\n' && Has(s, p + 1, key)
  {
    if Has(s, p, "\n" + key) {
      assert s[p] == ("\n" + key)[0];
      HasSplit(s, p, "\n", key);
    }
  }

  lemma OneBreak(e: Entry)
    requires '\n' !in e.key && '\n' !in e.text
    ensures Line(e) != "" && Line(e)[|Line(e)| - 1] == '\n'
    ensures forall i | 0 <= i < |Line(e)| - 1 :: Line(e)[i] != '\n'
  {}

  /** The first line of the rest of a file, and what follows it. */
  lemma FirstLine(env: string, p: nat, es: seq<Entry>)
    requires p <= |env| && es != [] && env[p..] == Lines(es) && WellKeyed(es)
    ensures var next := p + |Line(es[0])|;
            && next <= |env| && env[p..next] == Line(es[0]) && env[next..] == Lines(es[1..])
            && p < next && env[next - 1] == '\n' && WellKeyed(es[1..])
            && forall i | p <= i < next - 1 :: env[i] != '\n'
  {
    var line := Line(es[0]);
    var next := p + |line|;
    OneBreak(es[0]);
    assert env[p..] == line + Lines(es[1..]);
    assert env[next..] == env[p..][|line|..];
    assert env[p..next] == env[p..][..|line|];
    hide Line, Lines, WellKeyed;
    forall i | p <= i < next ensures env[i] == line[i - p] { assert env[i] == env[p..next][i - p]; }
  }

  lemma KeyStands(env: string, p: nat, e: Entry)
    requires p + |Line(e)| <= |env| && env[p..p + |Line(e)|] == Line(e)
    ensures Has(env, p, e.key) && Has(env, p + |e.key| + 1, e.text + [SEPARATOR])
  {
    var tail := e.text + [SEPARATOR];
    assert Line(e) == e.key + ("=" + (tail + "\n"));
    HasSplit(env, p, e.key, "=" + (tail + "\n"));
    HasSplit(env, p + |e.key|, "=", tail + "\n");
    HasSplit(env, p + |e.key| + 1, tail, "\n");
  }

  lemma OtherKey(env: string, p: nat, a: string, b: string)
    requires Has(env, p, a) && !(a <= b) && !(b <= a)
    ensures !Has(env, p, b)
  {
    if Has(env, p, b) {
      if |a| <= |b| { HasPrefix(env, p, a, b); } else { HasPrefix(env, p, b, a); }
    }
  }

  /** Neither of two keys begins with the other. */
  predicate Unlike(a: string, b: string) {
    !(a <= b) && !(b <= a)
  }

  /** Another key does not stand behind a line break before the next line. */
  lemma NotInLine(env: string, p: nat, es: seq<Entry>, key: string)
    requires 0 < p <= |env| && env[p..] == Lines(es) && WellKeyed(es) && es != [] && Unlike(es[0].key, key)
    ensures p + |Line(es[0])| <= |env|
    ensures forall i | p - 1 <= i < p + |Line(es[0])| - 1 :: !Has(env, i, "\n" + key)
  {
    FirstLine(env, p, es);
    KeyStands(env, p, es[0]);
    OtherKey(env, p, es[0].key, key);
    hide Line, Lines, WellKeyed, Has;
    forall i | p - 1 <= i < p + |Line(es[0])| - 1
      ensures !Has(env, i, "\n" + key)
    {
      HasAfterBreak(env, i, key);
    }
  }

  /** A key unlike all keys of the lines stands behind none of their line breaks. */
  lemma {:induction false} NotInLines(env: string, p: nat, es: seq<Entry>, key: string)
    requires 0 < p <= |env| && env[p..] == Lines(es) && WellKeyed(es) && key != ""
    requires forall e | e in es :: Unlike(e.key, key)
    ensures Find(env, "\n" + key, p - 1) == NPOS
    decreases |es|
  {
    hide Line, WellKeyed, Has, Unlike;
    if es == [] {
      NotAtEnd(env, key);
    } else {
      FirstLine(env, p, es);
      NotInLine(env, p, es, key);
      FindSkip(env, "\n" + key, p - 1, p + |Line(es[0])| - 1);
      NotInLines(env, p + |Line(es[0])|, es[1..], key);
    }
  }

  lemma NotAtEnd(env: string, key: string)
    requires env != "" && key != ""
    ensures Find(env, "\n" + key, |env| - 1) == NPOS
  {}

  lemma KeysUnlike(es: seq<Entry>, i: nat, j: nat)
    requires WellKeyed(es) && i < |es| && j < |es| && i != j
    ensures Unlike(es[i].key, es[j].key)
  {}

  lemma LinesFrom(es: seq<Entry>, k: nat)
    requires 0 < k <= |es|
    ensures |Lines(es[..k])| == |Line(es[0])| + |Lines(es[1..][..k - 1])|
    ensures es[1..][k - 1..] == es[k..] && (k < |es| ==> es[1..][k - 1] == es[k])
  {
    assert es[..k][0] == es[0] && es[..k][1..] == es[1..][..k - 1];
  }

  /** From the end of a line on, the search for a key behind a line break finds its line. */
  lemma {:induction false} FindLine(env: string, p: nat, es: seq<Entry>, k: nat)
    requires 0 < p <= |env| && env[p - 1] == '\n' && env[p..] == Lines(es)
    requires WellKeyed(es) && k < |es|
    ensures p + |Lines(es[..k])| <= |env|
    ensures Find(env, "\n" + es[k].key, p - 1) == p - 1 + |Lines(es[..k])|
    ensures env[p + |Lines(es[..k])|..] == Lines(es[k..])
    decreases k
  {
    hide Line, Lines, WellKeyed, Find, Has;
    if k == 0 {
      FoundHere(env, p, es);
    } else {
      var next := p + |Line(es[0])|;
      FirstLine(env, p, es);
      assert Unlike(es[0].key, es[k].key) by { KeysUnlike(es, 0, k); }
      NotInLine(env, p, es, es[k].key);
      FindSkip(env, "\n" + es[k].key, p - 1, next - 1);
      LinesFrom(es, k);
      FindLine(env, next, es[1..], k - 1);
    }
  }

  lemma FoundHere(env: string, p: nat, es: seq<Entry>)
    requires 0 < p <= |env| && env[p - 1] == '\n' && es != [] && env[p..] == Lines(es) && WellKeyed(es)
    ensures Find(env, "\n" + es[0].key, p - 1) == p - 1
    ensures |Lines(es[..0])| == 0 && es[0..] == es
  {
    FirstLine(env, p, es);
    KeyStands(env, p, es[0]);
    hide Line, WellKeyed;
    BreakAndKey(env, p - 1, es[0].key);
  }

  lemma BreakAndKey(s: string, p: nat, key: string)
    requires p < |s| && s[p] == '\n' && Has(s, p + 1, key)
    ensures Has(s, p, "\n" + key)
  {
    assert s[p..p + 1 + |key|] == [s[p]] + s[p + 1..p + 1 + |key|];
  }
}
