/** What a pointer text means, in the words of sections 3, 4 and 6 of RFC 6901. */
module PointerMeaning {
  import opened JsonText
  import opened JsonPointer
  import opened PointerFragments
  import Encodings
  import PointerLaws

  /** The unreserved characters of section 2.3 of RFC 3986: letters, digits and "-", ".", "_" and "~". */
  lemma UnreservedCharacters(c: char)
    ensures var n := c as int;
            NeedPercentEncode(c) <==>
            !(0x41 <= n <= 0x5A || 0x61 <= n <= 0x7A || 0x30 <= n <= 0x39 || n == 0x2D || n == 0x2E || n == 0x5F || n == 0x7E)
  {}

  /** Triplets are printed with capital digits. */
  lemma CapitalDigits(b: int)
    requires 0 <= b < 0x100
    ensures var digits := "0123456789ABCDEF"; PercentEncode([b]) == ['%', digits[b / 16], digits[b % 16]]
  {
    assert [b][1..] == [];
  }

  // ---------- section 4: the names ----------

  /** Every occurrence of "~d" is replaced by c. */
  function Replaced(s: string, d: char, c: char): string {
    if |s| < 2 then s
    else if s[0] == '~' && s[1] == d then [c] + Replaced(s[2..], d, c)
    else [s[0]] + Replaced(s[1..], d, c)
  }

  /** First every "~1" becomes '/', and then every "~0" becomes '~'. */
  function Decoded(raw: string): string {
    Replaced(Replaced(raw, '1', '/'), '0', '~')
  }

  /** The parts of a text between its solidi, from p on. */
  function Segments(s: string, p: nat, part: string, done: seq<string>): seq<string>
    requires p <= |s|
    decreases |s| - p
  {
    if p == |s| then done + [part]
    else if s[p] == '/' then Segments(s, p + 1, "", done + [part])
    else Segments(s, p + 1, part + [s[p]], done)
  }

  /** The reference tokens of a pointer: what follows each solidus, decoded. */
  function Tokens(s: string): seq<Token> {
    if s == "" then [] else Named(Segments(s, 1, "", []))
  }

  function Named(segments: seq<string>): (tokens: seq<Token>)
    ensures |tokens| == |segments|
  {
    seq(|segments|, i requires 0 <= i < |segments| => TokenOf(Decoded(segments[i])))
  }

  lemma ReplacedHead(c: char, s: string, d: char, e: char)
    requires c != '~'
    ensures Replaced([c] + s, d, e) == [c] + Replaced(s, d, e)
  {
    assert ([c] + s)[1..] == s;
  }

  lemma ReplacedOther(c: char, s: string, d: char, e: char)
    requires c != d && c != '~'
    ensures Replaced("~" + ([c] + s), d, e) == "~" + ([c] + Replaced(s, d, e))
  {
    var all := "~" + ([c] + s);
    assert all[1..] == [c] + s;
    ReplacedHead(c, s, d, e);
  }

  lemma ReplacedSame(d: char, s: string, e: char)
    ensures Replaced("~" + ([d] + s), d, e) == [e] + Replaced(s, d, e)
  {
    var all := "~" + ([d] + s);
    assert all[0] == '~' && all[1] == d && all[2..] == s;
    assert Replaced(all, d, e) == [e] + Replaced(all[2..], d, e);
  }

  lemma DecodedStep(s: string)
    ensures forall c: char | c != '~' :: Decoded([c] + s) == [c] + Decoded(s)
    ensures Decoded("~" + ("1" + s)) == "/" + Decoded(s)
    ensures Decoded("~" + ("0" + s)) == "~" + Decoded(s)
  {
    hide Replaced;
    var t := Replaced(s, '1', '/');
    forall c: char | c != '~' ensures Decoded([c] + s) == [c] + Decoded(s) {
      ReplacedHead(c, s, '1', '/');
      ReplacedHead(c, t, '0', '~');
    }
    ReplacedSame('1', s, '/');
    ReplacedHead('/', t, '0', '~');
    ReplacedOther('0', s, '1', '/');
    ReplacedSame('0', t, '~');
  }

  /** A name is its segment, decoded. */
  lemma {:induction false} NameMeans(s: string, p: nat, done: string)
    requires p <= |s| && NameFrom(s, p, false, done).Name?
    ensures var r := NameFrom(s, p, false, done); r.name == done + Decoded(s[p..r.end])
    decreases |s| - p
  {
    hide Decoded, PieceAt;
    var r := NameFrom(s, p, false, done);
    if p == |s| || s[p] == '/' {
      NothingDecoded();
      assert s[p..r.end] == "";
    } else {
      var piece := PieceAt(s, p, false);
      NameMeans(s, piece.next, done + piece.units);
      PieceDecodes(s, p, r.end);
      assert done + piece.units + Decoded(s[piece.next..r.end]) == done + (piece.units + Decoded(s[piece.next..r.end]));
    }
  }

  lemma PieceDecodes(s: string, p: nat, end: nat)
    requires p < end <= |s| && s[p] != '/' && PieceAt(s, p, false).Piece? && PieceAt(s, p, false).next <= end
    ensures var piece := PieceAt(s, p, false); Decoded(s[p..end]) == piece.units + Decoded(s[piece.next..end])
  {
    hide Decoded;
    var rest := s[PieceAt(s, p, false).next..end];
    DecodedStep(rest);
    SegmentStep(s, p, end);
  }

  lemma NothingDecoded()
    ensures Decoded("") == ""
  {}

  lemma SegmentStep(s: string, p: nat, end: nat)
    requires p < end <= |s| && s[p] != '/' && PieceAt(s, p, false).Piece? && PieceAt(s, p, false).next <= end
    ensures var q := PieceAt(s, p, false).next;
            s[p..end] == if s[p] == '~' then "~" + ([s[p + 1]] + s[q..end]) else [s[p]] + s[q..end]
  {}

  lemma {:induction false} SegmentRead(s: string, p: nat, end: nat, part: string, done: seq<string>)
    requires p <= end <= |s| && forall i | p <= i < end :: s[i] != '/'
    ensures Segments(s, p, part, done) == Segments(s, end, part + s[p..end], done)
    decreases end - p
  {
    if p < end {
      SegmentRead(s, p + 1, end, part + [s[p]], done);
      assert part + [s[p]] + s[p + 1..end] == part + s[p..end];
    } else {
      assert part + s[p..end] == part;
    }
  }

  /** The tokens from a solidus on are what the segments behind it mean. */
  lemma {:induction false} TokensMean(s: string, p: nat, done: seq<string>)
    requires p < |s| && s[p] == '/' && TokensFrom(s, p, false, Named(done)).Tokens?
    ensures TokensFrom(s, p, false, Named(done)).tokens == Named(Segments(s, p + 1, "", done))
    decreases |s| - p
  {
    hide NameFrom, Decoded, TokenOf;
    var r := NameFrom(s, p + 1, false, "");
    NameMeans(s, p + 1, "");
    SegmentRead(s, p + 1, r.end, "", done);
    var raw := s[p + 1..r.end];
    assert "" + Decoded(raw) == Decoded(raw) && "" + raw == raw;
    assert Named(done + [raw]) == Named(done) + [TokenOf(r.name)];
    if r.end < |s| { TokensMean(s, r.end, done + [raw]); }
  }

  /** A plain pointer that is accepted denotes the tokens of RFC 6901. */
  lemma PlainMeans(s: string)
    requires !IsUriFragment(s) && Parse(s).Tokens?
    ensures Parse(s) == JsonPointer.Tokens(Tokens(s))
  {
    hide NameFrom, Segments;
    assert Named([]) == [];
    if s != "" { TokensMean(s, 0, []); }
  }

  // ---------- section 6: URI fragments ----------

  /** The plain text a fragment stands for: its triplets are decoded. */
  function PlainText(s: string): string
    requires s != "" && LegalFrom(s, 1)
  {
    Encodings.Chars(Unpercent(s, 1))
  }

  /** A triplet of '/' stands at i. */
  predicate IsSolidusTriplet(s: string, i: nat) {
    IsTriplet(s, i) && TripletByte(s, i) == '/' as int
  }

  predicate NoSolidusTriplet(s: string, p: nat) {
    forall i | p <= i < |s| :: !IsSolidusTriplet(s, i)
  }

  /** The text t from q on is the fragment s from p on, decoded. */
  predicate Stands(s: string, p: nat, t: string, q: nat)
  {
    p <= |s| && LegalFrom(s, p) && q <= |t| && t[q..] == Encodings.Chars(Unpercent(s, p))
  }

  lemma OneUnit(s: string, p: nat, t: string, q: nat, k: nat)
    requires p < |s| && Stands(s, p, t, q)
    requires if IsTriplet(s, p) then k == 3 else k == 1 && s[p] != '%' && (s[p] == '/' || !NeedPercentEncode(s[p]))
    ensures q < |t| && t[q] as int == (if k == 3 then TripletByte(s, p) else s[p] as int) && Stands(s, p + k, t, q + 1)
  {
    hide TripletByte;
    LegalStep(s, p, k);
    var u := Unpercent(s, p);
    assert t[q..][0] == t[q] && t[q + 1..] == t[q..][1..];
    assert Encodings.Chars(u)[1..] == Encodings.Chars(u[1..]);
    assert u[1..] == Unpercent(s, p + k);
  }

  /** One step of the plain parser at a unit that is no solidus and no tilde. */
  lemma PlainUnit(t: string, q: nat, done: string)
    requires q < |t| && t[q] != '/' && t[q] != '~'
    ensures NameFrom(t, q, false, done) == NameFrom(t, q + 1, false, done + [t[q]])
  {}

  lemma PlainTilde(t: string, q: nat, done: string)
    requires q + 1 < |t| && t[q] == '~' && (t[q + 1] == '0' || t[q + 1] == '1')
    ensures NameFrom(t, q, false, done) == NameFrom(t, q + 2, false, done + if t[q + 1] == '0' then "~" else "/")
  {}

  /** A step of the fragment parser and the steps of the plain one. */
  lemma PieceDecoded(s: string, p: nat, t: string, q: nat, done: string) returns (q': nat)
    requires p < |s| && s[p] != '/' && PieceAt(s, p, true).Piece? && Stands(s, p, t, q) && NoSolidusTriplet(s, p)
    ensures var piece := PieceAt(s, p, true);
            q' <= |t| && Stands(s, piece.next, t, q') && NameFrom(t, q, false, done) == NameFrom(t, q', false, done + piece.units)
  {
    hide NameFrom, PercentPiece, PercentBytes, TripletByte, LegalFrom, Stands;
    if s[p] == '%' {
      q' := PercentDecoded(s, p, t, q, done);
    } else {
      PlainStands(s, p, t, q);
      OneUnit(s, p, t, q, 1);
      if s[p] == '~' {
        PlainStands(s, p + 1, t, q + 1);
        OneUnit(s, p + 1, t, q + 1, 1);
        PlainTilde(t, q, done);
        q' := q + 2;
      } else {
        PlainUnit(t, q, done);
        q' := q + 1;
      }
    }
  }

  lemma PlainStands(s: string, p: nat, t: string, q: nat)
    requires Stands(s, p, t, q)
    ensures p <= |s| && LegalFrom(s, p) && q <= |t|
    ensures p < |s| && s[p] != '%' ==> !IsTriplet(s, p) && (s[p] == '/' || !NeedPercentEncode(s[p]))
  {}

  lemma PercentDecoded(s: string, p: nat, t: string, q: nat, done: string) returns (q': nat)
    requires p < |s| && s[p] == '%' && PercentPiece(s, p).Piece? && Stands(s, p, t, q) && NoSolidusTriplet(s, p)
    ensures var piece := PercentPiece(s, p);
            q' <= |t| && Stands(s, piece.next, t, q') && NameFrom(t, q, false, done) == NameFrom(t, q', false, done + piece.units)
  {
    hide NameFrom, PercentBytes, TripletByte, LegalFrom, Stands, NoSolidusTriplet;
    var b := PercentBytes(s, p, 4);
    var n := Encodings.CharLength(b, 0);
    OneTripletAt(s, p);
    if n == 1 {
      OneByte(b);
      OneUnit(s, p, t, q, 3);
      NotSolidus(s, p);
      if b[0] == '~' as int {
        PlainStands(s, p + 3, t, q + 1);
        OneUnit(s, p + 3, t, q + 1, 1);
        PlainTilde(t, q, done);
        q' := q + 2;
      } else {
        PlainUnit(t, q, done);
        q' := q + 1;
      }
    } else {
      HighBytes(b, n);
      RunDecoded(s, p, 4, n, t, q, done);
      q' := q + n;
    }
  }

  lemma OneTripletAt(s: string, p: nat)
    requires p < |s| && s[p] == '%' && PercentBytes(s, p, 4) != []
    ensures IsTriplet(s, p) && PercentBytes(s, p, 4)[0] == TripletByte(s, p)
  {}

  lemma NotSolidus(s: string, p: nat)
    requires p < |s| && IsTriplet(s, p) && NoSolidusTriplet(s, p)
    ensures TripletByte(s, p) != '/' as int
  {
    assert !IsSolidusTriplet(s, p);
  }

  /** A run of triplets of bytes beyond ASCII. */
  lemma {:induction false} RunDecoded(s: string, p: nat, k: nat, n: nat, t: string, q: nat, done: string)
    requires n <= |PercentBytes(s, p, k)| && (forall i | 0 <= i < n :: 0x80 <= PercentBytes(s, p, k)[i]) && Stands(s, p, t, q)
    ensures Stands(s, p + 3 * n, t, q + n) && q + n <= |t|
    ensures NameFrom(t, q, false, done) == NameFrom(t, q + n, false, done + Encodings.Chars(PercentBytes(s, p, k)[..n]))
    decreases n
  {
    hide NameFrom, TripletByte, LegalFrom, Stands, IsTriplet, Encodings.Chars;
    PlainStands(s, p, t, q);
    if n == 0 {
      NoChars(done);
    } else {
      var b := PercentBytes(s, p, k);
      RunHead(s, p, k);
      assert 0x80 <= b[0];
      OneUnit(s, p, t, q, 3);
      PlainUnit(t, q, done);
      var rest := PercentBytes(s, p + 3, k - 1);
      forall i | 0 <= i < n - 1 ensures 0x80 <= rest[i] { assert rest[i] == b[i + 1]; }
      RunDecoded(s, p + 3, k - 1, n - 1, t, q + 1, done + [t[q]]);
      CharsOfRun(b, rest, n, done, t[q]);
    }
  }

  lemma NoChars(done: string)
    ensures done + Encodings.Chars([]) == done
  {}

  lemma CharsOfRun(b: seq<int>, rest: seq<int>, n: nat, done: string, c: char)
    requires 0 < n <= |b| && Encodings.Bytes(b) && b == [b[0]] + rest && c as int == b[0]
    ensures n - 1 <= |rest| && Encodings.Bytes(rest)
    ensures done + Encodings.Chars(b[..n]) == done + [c] + Encodings.Chars(rest[..n - 1])
  {
    hide Encodings.Chars;
    assert forall i | 0 <= i < |rest| :: rest[i] == b[i + 1];
    var all, tail := Encodings.Chars(b[..n]), Encodings.Chars(rest[..n - 1]);
    forall i | 0 <= i < n ensures all[i] == ([c] + tail)[i] {
      if 0 < i { assert tail[i - 1] as int == rest[i - 1] == b[i]; }
    }
    assert all == [c] + tail;
  }

  lemma RunHead(s: string, p: nat, k: nat)
    requires PercentBytes(s, p, k) != []
    ensures 0 < k && p < |s| && IsTriplet(s, p)
    ensures PercentBytes(s, p, k) == [TripletByte(s, p)] + PercentBytes(s, p + 3, k - 1)
  {}

  lemma {:induction false} NameDecoded(s: string, p: nat, t: string, q: nat, done: string)
    requires p <= |s| && NameFrom(s, p, true, done).Name? && Stands(s, p, t, q) && NoSolidusTriplet(s, p)
    ensures var r, r' := NameFrom(s, p, true, done), NameFrom(t, q, false, done);
            r'.Name? && r'.name == r.name && Stands(s, r.end, t, r'.end)
    decreases |s| - p
  {
    hide PieceAt, LegalFrom, Stands, NoSolidusTriplet;
    if p < |s| && s[p] != '/' {
      var q' := PieceDecoded(s, p, t, q, done);
      LaterSolidus(s, p, PieceAt(s, p, true).next);
      NameDecoded(s, PieceAt(s, p, true).next, t, q', done + PieceAt(s, p, true).units);
    } else {
      NameEnd(s, p, t, q);
    }
  }

  lemma LaterSolidus(s: string, p: nat, q: nat)
    requires p <= q && NoSolidusTriplet(s, p)
    ensures NoSolidusTriplet(s, q)
  {}

  lemma NameEnd(s: string, p: nat, t: string, q: nat)
    requires p <= |s| && Stands(s, p, t, q) && (p == |s| || s[p] == '/')
    ensures q <= |t| && (if p == |s| then q == |t| else q < |t| && t[q] == '/' && Stands(s, p + 1, t, q + 1))
  {
    if p < |s| {
      OneUnit(s, p, t, q, 1);
    } else {
      assert |t[q..]| == 0;
    }
  }

  lemma {:induction false} TokensDecoded(s: string, p: nat, t: string, q: nat, done: seq<Token>)
    requires p <= |s| && TokensFrom(s, p, true, done).Tokens? && Stands(s, p, t, q) && NoSolidusTriplet(s, p)
    requires p == |s| || s[p] == '/'
    ensures q <= |t| && TokensFrom(t, q, false, done) == TokensFrom(s, p, true, done)
    decreases |s| - p
  {
    hide NameFrom, TokenOf, LegalFrom, Stands, NoSolidusTriplet;
    NameEnd(s, p, t, q);
    if p < |s| {
      LaterSolidus(s, p, p + 1);
      NameDecoded(s, p + 1, t, q + 1, "");
      var r := NameFrom(s, p + 1, true, "");
      LaterSolidus(s, p + 1, r.end);
      TokensDecoded(s, r.end, t, NameFrom(t, q + 1, false, "").end, done + [TokenOf(r.name)]);
    }
  }

  // ---------- where the code departs from section 6 ----------

  lemma {:induction false} TokensCounted(s: string, p: nat, uri: bool, done: seq<Token>)
    requires p <= |s| && TokensFrom(s, p, uri, done).Tokens?
    ensures |TokensFrom(s, p, uri, done).tokens| == |done| + Solidi(s, p)
    decreases |s| - p
  {
    hide NameFrom, TokenOf;
    if p < |s| {
      var r := NameFrom(s, p + 1, uri, "");
      SolidiSkip(s, p + 1, r.end);
      TokensCounted(s, r.end, uri, done + [TokenOf(r.name)]);
    }
  }

  /** Decoding triplets makes solidi of the triplets of solidi. */
  lemma {:induction false} MoreSolidi(s: string, p: nat, t: string, q: nat)
    requires Stands(s, p, t, q)
    ensures p <= |s| && q <= |t| && Solidi(s, p) <= Solidi(t, q)
    ensures !NoSolidusTriplet(s, p) ==> Solidi(s, p) < Solidi(t, q)
    decreases |s| - p
  {
    hide LegalFrom, Stands, TripletByte;
    PlainStands(s, p, t, q);
    if p < |s| {
      var k := if IsTriplet(s, p) then 3 else 1;
      LegalUnit(s, p);
      OneUnit(s, p, t, q, k);
      MoreSolidi(s, p + k, t, q + 1);
      TripletSolidi(s, p, k);
    }
  }

  lemma LegalUnit(s: string, p: nat)
    requires p < |s| && LegalFrom(s, p)
    ensures !IsTriplet(s, p) ==> s[p] != '%' && (s[p] == '/' || !NeedPercentEncode(s[p]))
  {}

  lemma TripletSolidi(s: string, p: nat, k: nat)
    requires p < |s| && p + k <= |s| && k == if IsTriplet(s, p) then 3 else 1
    ensures Solidi(s, p) == (if k == 1 && s[p] == '/' then 1 else 0) + Solidi(s, p + k)
    ensures !NoSolidusTriplet(s, p) ==> !NoSolidusTriplet(s, p + k) || IsSolidusTriplet(s, p)
  {
    hide TripletByte;
    if k == 3 {
      SolidiSkip(s, p, p + 3);
      assert !IsTriplet(s, p + 1) && !IsTriplet(s, p + 2);
      assert !IsSolidusTriplet(s, p + 1) && !IsSolidusTriplet(s, p + 2);
    }
  }

  /** A fragment denotes the same pointer as its percent-decoded text, as section 6 of RFC 6901 has it,
      exactly when no solidus is percent-encoded: the code takes such a solidus for a part of the name. */
  lemma FragmentMeans(s: string)
    requires IsUriFragment(s) && Parse(s).Tokens?
    ensures LegalFrom(s, 1) && !IsUriFragment(PlainText(s))
    ensures Parse(PlainText(s)) == Parse(s) <==> NoSolidusTriplet(s, 1)
  {
    hide LegalFrom, TokensFrom, Unpercent, IsTriplet, NoSolidusTriplet, TildesFrom, Spells;
    UriAccepted(s);
    var t := PlainText(s);
    assert t[0..] == t;
    assert Stands(s, 1, t, 0);
    StartsPlain(s, t);
    if NoSolidusTriplet(s, 1) {
      TokensDecoded(s, 1, t, 0, []);
    } else {
      MoreSolidi(s, 1, t, 0);
      TokensCounted(s, 1, true, []);
      if Parse(t).Tokens? { TokensCounted(t, 0, false, []); }
    }
  }

  lemma StartsPlain(s: string, t: string)
    requires s != "" && (|s| == 1 || s[1] == '/') && Stands(s, 1, t, 0)
    ensures !IsUriFragment(t)
  {
    hide LegalFrom;
    if |s| > 1 { OneUnit(s, 1, t, 0, 1); }
  }

  // ---------- printed fragments ----------

  /** Every unit of a text that is neither unreserved nor '/' becomes a triplet. */
  function Encoded(w: string): string
    requires IsByteText(w)
  {
    if w == "" then "" else EncodedUnit(w[0]) + Encoded(w[1..])
  }

  function EncodedUnit(c: char): string
    requires c as int < 0x100
  {
    if NeedPercentEncode(c) && c != '/' then PercentEncode([c as int]) else [c]
  }

  lemma {:induction false} EncodedAppend(a: string, b: string)
    requires IsByteText(a) && IsByteText(b)
    ensures IsByteText(a + b) && Encoded(a + b) == Encoded(a) + Encoded(b)
  {
    hide EncodedUnit;
    if a == "" {
      assert a + b == b;
    } else {
      EncodedAppend(a[1..], b);
      EncodedHead(a[0], a[1..] + b, a + b);
      assert EncodedUnit(a[0]) + (Encoded(a[1..]) + Encoded(b)) == EncodedUnit(a[0]) + Encoded(a[1..]) + Encoded(b);
    }
  }

  lemma EncodedHead(c: char, rest: string, all: string)
    requires IsByteText(rest) && c as int < 0x100 && all == [c] + rest
    ensures IsByteText(all) && Encoded(all) == EncodedUnit(c) + Encoded(rest)
  {
    hide EncodedUnit;
    assert all[1..] == rest;
  }

  lemma EncodedEscape(c: char)
    requires c as int < 0x100 && (NeedPercentEncode(c) ==> c == '/')
    ensures IsByteText(EscapeUnit(c)) && Encoded(EscapeUnit(c)) == EscapeUnit(c)
  {
    TildeIsUnreserved();
    assert Encoded("") == "";
    EncodedAppend("~", "0");
    EncodedAppend("~", "1");
    assert "~0" == "~" + "0" && "~1" == "~" + "1";
    assert Encoded("~") == "~" && Encoded("0") == "0" && Encoded("1") == "1";
    if c != '~' && c != '/' { assert Encoded([c]) == [c] + Encoded([c][1..]); }
  }

  /** A run of units that must be encoded. */
  lemma {:induction false} EncodedRun(w: string)
    requires IsByteText(w) && forall i | 0 <= i < |w| :: NeedPercentEncode(w[i]) && w[i] != '/'
    ensures Encoded(w) == PercentEncode(Units(w))
  {
    hide NeedPercentEncode;
    if w != "" {
      EncodedRun(w[1..]);
      assert Units(w)[1..] == Units(w[1..]);
      PercentOne(w[0] as int, Units(w[1..]));
      assert Units(w) == [w[0] as int] + Units(w[1..]);
    }
  }

  lemma PercentOne(b: int, rest: seq<int>)
    requires 0 <= b < 0x100 && Encodings.Bytes(rest)
    ensures PercentEncode([b] + rest) == PercentEncode([b]) + PercentEncode(rest)
  {
    hide HexDigit;
    assert ([b] + rest)[1..] == rest && [b][1..] == [];
    assert PercentEncode([]) == "";
  }

  /** The plain printer passes over a run of units that need no escape. */
  lemma {:induction false} PlainRun(name: string, j: nat, n: nat, out: string)
    requires j + n <= |name| && forall i | j <= i < j + n :: name[i] != '/' && name[i] != '~'
    ensures NameText(name, j, false, out) == NameText(name, j + n, false, out + name[j..j + n])
    decreases n
  {
    if n == 0 {
      assert out + name[j..j] == out;
    } else {
      PlainRun(name, j + 1, n - 1, out + [name[j]]);
      assert out + [name[j]] + name[j + 1..j + n] == out + name[j..j + n];
    }
  }

  /** The units of a character that must be encoded: one of them, or bytes beyond ASCII. */
  lemma CharacterRun(name: string, j: nat, n: nat)
    requires j < |name| && IsByteText(name) && NeedPercentEncode(name[j]) && name[j] != '/'
    requires 0 < n == Encodings.CharLength(Units(name), j)
    ensures j + n <= |name| && forall i | j <= i < j + n :: NeedPercentEncode(name[i]) && name[i] != '/' && name[i] != '~'
    ensures Units(name)[j..j + n] == Units(name[j..j + n])
  {
    TildeIsUnreserved();
    var c := Units(name)[j..j + n];
    assert Encodings.IsUtf8Char(c);
    forall i | j <= i < j + n ensures c[i - j] == name[i] as int {}
    if 1 < n { HighUnits(c); }
  }

  lemma HighUnits(c: seq<int>)
    requires Encodings.IsUtf8Char(c) && 1 < |c|
    ensures forall i | 0 <= i < |c| :: 0x80 <= c[i]
  {}

  lemma FragmentStep(name: string, j: nat, out: string)
    requires j < |name| && IsByteText(name) && NameText(name, j, true, out).Printed?
    ensures if NeedPercentEncode(name[j]) && name[j] != '/' then
              var n := Encodings.CharLength(Units(name), j);
              && 0 < n <= |name| - j
              && NameText(name, j, true, out) == NameText(name, j + n, true, out + PercentEncode(Units(name)[j..j + n]))
            else NameText(name, j, true, out) == NameText(name, j + 1, true, out + EscapeUnit(name[j]))
  {
    hide NeedPercentEncode, PercentEncode, EscapeUnit;
  }

  lemma PlainUnitPrinted(name: string, j: nat, out: string)
    requires j < |name|
    ensures NameText(name, j, false, out) == NameText(name, j + 1, false, out + EscapeUnit(name[j]))
  {}

  /** One step of the fragment printer and the steps of the plain one. */
  lemma EncodedStep(name: string, j: nat, out: string) returns (n: nat, piece: string)
    requires j < |name| && IsByteText(name) && IsByteText(out) && NameText(name, j, true, "#" + Encoded(out)).Printed?
    ensures 0 < n <= |name| - j && IsByteText(out + piece)
    ensures NameText(name, j, true, "#" + Encoded(out)) == NameText(name, j + n, true, "#" + Encoded(out + piece))
    ensures NameText(name, j, false, out) == NameText(name, j + n, false, out + piece)
  {
    hide NeedPercentEncode, Encoded, PercentEncode, EscapeUnit, NameText;
    var encode := NeedPercentEncode(name[j]) && name[j] != '/';
    FragmentStep(name, j, "#" + Encoded(out));
    n := if encode then Encodings.CharLength(Units(name), j) else 1;
    if !encode { PlainUnitPrinted(name, j, out); }
    piece := if encode then name[j..j + n] else EscapeUnit(name[j]);
    if encode {
      CharacterRun(name, j, n);
      PlainRun(name, j, n, out);
      EncodedRun(piece);
    } else {
      EncodedEscape(name[j]);
    }
    EncodedAppend(out, piece);
    assert "#" + (Encoded(out) + Encoded(piece)) == "#" + Encoded(out) + Encoded(piece);
  }

  lemma {:induction false} NameEncoded(name: string, j: nat, out: string)
    requires j <= |name| && IsByteText(name) && IsByteText(out) && NameText(name, j, true, "#" + Encoded(out)).Printed?
    ensures var plain := NameText(name, j, false, out);
            plain.Printed? && IsByteText(plain.text) && NameText(name, j, true, "#" + Encoded(out)) == Printed("#" + Encoded(plain.text))
    decreases |name| - j
  {
    hide Encoded, NameText, IsByteText;
    if j < |name| {
      var n, piece := EncodedStep(name, j, out);
      NameEncoded(name, j + n, out + piece);
    } else {
      NameDone(name, out);
    }
  }

  lemma NameDone(name: string, out: string)
    requires IsByteText(name) && IsByteText(out)
    ensures NameText(name, |name|, false, out) == Printed(out)
    ensures NameText(name, |name|, true, "#" + Encoded(out)) == Printed("#" + Encoded(out))
  {
    hide Encoded;
  }

  lemma {:induction false} TokensEncoded(tokens: seq<Token>, k: nat, out: string)
    requires k <= |tokens| && ByteNames(tokens) && IsByteText(out) && TokensText(tokens, k, true, "#" + Encoded(out)).Printed?
    ensures var plain := TokensText(tokens, k, false, out);
            plain.Printed? && IsByteText(plain.text) && TokensText(tokens, k, true, "#" + Encoded(out)) == Printed("#" + Encoded(plain.text))
    decreases |tokens| - k
  {
    hide NameText, Encoded;
    if k < |tokens| {
      EncodedAppend(out, "/");
      SolidusEncoded();
      assert "#" + (Encoded(out) + "/") == "#" + Encoded(out) + "/";
      NameEncoded(tokens[k].name, 0, out + "/");
      TokensEncoded(tokens, k + 1, NameText(tokens[k].name, 0, false, out + "/").text);
    }
  }

  lemma SolidusEncoded()
    ensures IsByteText("/") && Encoded("/") == "/"
  {
    assert Encoded("") == "";
  }

  /** A printed fragment is the printed plain text with exactly the units percent-encoded that are neither
      unreserved nor '/'. */
  lemma FragmentPrinted(tokens: seq<Token>)
    requires ByteNames(tokens) && Print(tokens, true).Printed?
    ensures var plain := Print(tokens, false);
            plain.Printed? && IsByteText(plain.text) && Print(tokens, true) == Printed("#" + Encoded(plain.text))
  {
    hide TokensText;
    assert Encoded("") == "" && "#" + Encoded("") == "#";
    TokensEncoded(tokens, 0, "");
  }

  // ---------- errors ----------

  /** What each error says of the offset it is reported at. */
  predicate Explains(s: string, code: PointerError, at: nat) {
    at <= |s| &&
    match code
    case TokenMustBeginWithSolidus => at == (if IsUriFragment(s) then 1 else 0) && at < |s| && s[at] != '/'
    case InvalidEscape =>
      && !Selects(s, at)
      && (|| (0 < at && s[at - 1] == '~')
          || (IsUriFragment(s) && 3 <= at && IsTriplet(s, at - 3) && TripletByte(s, at - 3) == '~' as int))
    case InvalidPercentEncoding =>
      IsUriFragment(s) && at < |s| && s[at] == '%' && Encodings.CharLength(PercentBytes(s, at, 4), 0) == 0
    case CharacterMustPercentEncode =>
      IsUriFragment(s) && at < |s| && s[at] != '%' && s[at] != '/' && NeedPercentEncode(s[at])
  }

  lemma PieceFails(s: string, p: nat, uri: bool)
    requires p < |s| && s[p] != '/' && uri == IsUriFragment(s) && PieceAt(s, p, uri).BadPiece?
    ensures Explains(s, PieceAt(s, p, uri).code, PieceAt(s, p, uri).at)
  {
    hide TripletByte;
    if uri && s[p] == '%' {
      var b := PercentBytes(s, p, 4);
      if Encodings.CharLength(b, 0) == 1 { OneTripletAt(s, p); OneByte(b); }
    }
  }

  lemma {:induction false} NameFails(s: string, p: nat, uri: bool, done: string)
    requires p <= |s| && uri == IsUriFragment(s) && NameFrom(s, p, uri, done).BadName?
    ensures Explains(s, NameFrom(s, p, uri, done).code, NameFrom(s, p, uri, done).at)
    decreases |s| - p
  {
    hide PieceAt, Explains;
    if PieceAt(s, p, uri).BadPiece? { PieceFails(s, p, uri); }
    else { NameFails(s, PieceAt(s, p, uri).next, uri, done + PieceAt(s, p, uri).units); }
  }

  lemma {:induction false} TokensFail(s: string, p: nat, uri: bool, done: seq<Token>)
    requires p <= |s| && uri == IsUriFragment(s) && TokensFrom(s, p, uri, done).Invalid?
    requires p == |s| || s[p] == '/'
    ensures Explains(s, TokensFrom(s, p, uri, done).code, TokensFrom(s, p, uri, done).at)
    decreases |s| - p
  {
    hide NameFrom, TokenOf, Explains;
    var r := NameFrom(s, p + 1, uri, "");
    if r.BadName? { NameFails(s, p + 1, uri, ""); } else { TokensFail(s, r.end, uri, done + [TokenOf(r.name)]); }
  }

  /** A pointer that is refused is explained by what stands at the offset of its error. */
  lemma InvalidExplained(s: string)
    requires Parse(s).Invalid?
    ensures Explains(s, Parse(s).code, Parse(s).at)
  {
    hide NameFrom;
    var p := if IsUriFragment(s) then 1 else 0;
    if s[p] == '/' { TokensFail(s, p, IsUriFragment(s), []); }
  }
}
