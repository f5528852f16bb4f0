/** The operations that build and change a token file. */
module EnvStore {
  import opened JsonText
  import opened EnvFile
  import opened EnvFileLaws

  datatype Pair = Pair(key: string, value: string)

  function EntriesOf(pairs: seq<Pair>): (es: seq<Entry>)
    ensures |es| == |pairs|
  {
    seq(|pairs|, i requires 0 <= i < |pairs| => Entry(pairs[i].key, Quoted(pairs[i].value)))
  }

  lemma {:induction false} LinesAppend(es: seq<Entry>, e: Entry)
    ensures Lines(es + [e]) == Lines(es) + Line(e)
  {
    hide Line;
    if es == [] {
      assert (es + [e])[1..] == [];
    } else {
      assert (es + [e])[1..] == es[1..] + [e];
      LinesAppend(es[1..], e);
    }
  }

  /** The pairs come in the order in which the caller's table yields them. */
  method CreateEnvFile(pairs: seq<Pair>) returns (file: string)
    ensures file == File(EntriesOf(pairs))
  {
    hide Header;
    file := Header();
    for i := 0 to |pairs|
      invariant file == File(EntriesOf(pairs[..i]))
    {
      var line := pairs[i].key + "=\"" + pairs[i].value + "\"" + [SEPARATOR] + "\n";
      assert EntriesOf(pairs[..i + 1]) == EntriesOf(pairs[..i]) + [Entry(pairs[i].key, Quoted(pairs[i].value))];
      LinesAppend(EntriesOf(pairs[..i]), Entry(pairs[i].key, Quoted(pairs[i].value)));
      assert line == Line(Entry(pairs[i].key, Quoted(pairs[i].value)));
      file := file + line;
    }
    assert pairs[..|pairs|] == pairs;
  }

  lemma {:induction false} RemoveQuotesAppend(s: string, c: char)
    ensures RemoveQuotes(s + [c]) == RemoveQuotes(s) + if c == '"' then "" else [c]
  {
    if s == "" {
      assert (s + [c])[1..] == "";
    } else {
      assert (s + [c])[1..] == s[1..] + [c];
      RemoveQuotesAppend(s[1..], c);
    }
  }

  /** Moves the characters that are not quotes to the front of the buffer. */
  method RemoveDoubleQuotes(s: array<char>) returns (n: nat)
    modifies s
    ensures n <= s.Length && s[..n] == RemoveQuotes(old(s[..]))
  {
    n := 0;
    ghost var was := s[..];
    for i := 0 to s.Length
      invariant n <= i && s[i..] == was[i..] && s[..n] == RemoveQuotes(was[..i])
    {
      assert was[..i + 1] == was[..i] + [was[i]];
      assert s[i] == s[i..][0] == was[i];
      RemoveQuotesAppend(was[..i], was[i]);
      if s[i] != '"' {
        ghost var kept := s[..n];
        s[n] := s[i];
        n := n + 1;
        assert s[..n] == kept + [was[i]];
      }
      assert s[i + 1..] == was[i + 1..];
    }
    assert was[..s.Length] == was;
  }

  class Store {
    var env: string

    constructor (pairs: seq<Pair>)
      ensures env == File(EntriesOf(pairs))
    {
      var file := CreateEnvFile(pairs);
      env := file;
    }

    method Read(key: string, json: bool) returns (r: Reading)
      ensures r == ReadToken(env, key, json)
    {
      var value := "";
      if env != "" {
        var start := Find(env, "\n" + key, 0);
        if start != NPOS {
          if start + |key| + 2 > |env| {
            return OutOfRange;
          }
          var rest := env[start + |key| + 2..];
          var end := Less1(Find(rest, [SEPARATOR], 0));
          value := Take(rest, end);
        }
      }
      r := Token(if value != "" then (if json then TrimOne(value, '"') else Sanitize(value)) else "");
    }

    /** Replaces the text in place; nothing is saved when the key or the separator is missing. */
    method Write(key: string, value: string) returns (ok: bool, threw: bool)
      modifies this
      ensures match WriteToken(old(env), key, value)
              case WriteOutOfRange => threw && !ok && env == old(env)
              case Written(now, found) => !threw && ok == found && env == now
    {
      threw := false;
      if env != "" {
        var at := Find(env, key, 0);
        if at != NPOS {
          var start := at + |key| + 1;
          if start > |env| {
            return false, true;
          }
          var end := Find(env[start..], [SEPARATOR], 0);
          if end != NPOS {
            end := end + start;
            env := env[..start] + value + env[end..];
            return true, false;
          }
        }
      }
      ok := false;
    }
  }
}
