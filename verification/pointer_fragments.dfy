/** Which URI fragments are pointers. */
module PointerFragments {
  import opened JsonText
  import opened JsonPointer
  import Encodings

  /** Every '%' from p on begins a triplet, and every other unit is '/' or needs no encoding. */
  predicate LegalFrom(s: string, p: nat) {
    forall i | p <= i < |s| :: IsTriplet(s, i) || (s[i] != '%' && (s[i] == '/' || !NeedPercentEncode(s[i])))
  }

  /** A '0' or a '1' stands at p as such. */
  predicate Selects(s: string, p: nat) {
    p < |s| && (s[p] == '0' || s[p] == '1')
  }

  /** Every '~', plain or as a triplet, introduces an escape. */
  predicate TildesFrom(s: string, p: nat) {
    && (forall i | p <= i < |s| && s[i] == '~' :: Selects(s, i + 1))
    && (forall i | p <= i < |s| && IsTriplet(s, i) && TripletByte(s, i) == '~' as int :: Selects(s, i + 3))
  }

  /** The bytes of a text whose triplets are decoded. */
  function Unpercent(s: string, p: nat): (u: seq<int>)
    requires p <= |s| && LegalFrom(s, p)
    ensures Encodings.Bytes(u)
    decreases |s| - p
  {
    if p == |s| then []
    else if IsTriplet(s, p) then [TripletByte(s, p)] + Unpercent(s, p + 3)
    else [s[p] as int] + Unpercent(s, p + 1)
  }

  /** A sequence of well-formed UTF-8 characters. */
  predicate Spells(u: seq<int>) {
    u == [] || (var n := Encodings.CharLength(u, 0); 0 < n && Spells(u[n..]))
  }

  predicate IsFragmentText(s: string, p: nat) {
    p <= |s| && LegalFrom(s, p) && TildesFrom(s, p) && Spells(Unpercent(s, p))
  }

  /** A URI fragment is a pointer exactly when it is empty or begins with '/', every unit is unreserved
      or part of a triplet, the triplets spell well-formed UTF-8, and every '~' introduces an escape. */
  lemma UriAccepted(s: string)
    requires IsUriFragment(s)
    ensures Parse(s).Tokens? <==> (|s| == 1 || s[1] == '/') && IsFragmentText(s, 1)
  {
    hide IsFragmentText;
    if |s| == 1 || s[1] == '/' { AcceptedFrom(s, 1, []); }
  }

  lemma {:induction false} AcceptedFrom(s: string, p: nat, done: seq<Token>)
    requires p <= |s| && (p < |s| ==> s[p] == '/')
    ensures TokensFrom(s, p, true, done).Tokens? <==> IsFragmentText(s, p)
    decreases |s| - p
  {
    hide NameFrom, TokenOf, IsFragmentText;
    if p < |s| {
      PlainStep(s, p);
      NameAccepted(s, p + 1, "");
      var r := NameFrom(s, p + 1, true, "");
      if r.Name? { AcceptedFrom(s, r.end, done + [TokenOf(r.name)]); }
    } else {
      NothingLeft(s);
    }
  }

  lemma {:induction false} NameAccepted(s: string, p: nat, done: string)
    requires p <= |s|
    ensures match NameFrom(s, p, true, done)
            case BadName(_, _) => !IsFragmentText(s, p)
            case Name(_, end) => IsFragmentText(s, p) <==> IsFragmentText(s, end)
    decreases |s| - p
  {
    hide PieceAt, IsFragmentText;
    if p < |s| && s[p] != '/' {
      PieceAccepted(s, p);
      if PieceAt(s, p, true).Piece? {
        NameAccepted(s, PieceAt(s, p, true).next, done + PieceAt(s, p, true).units);
      }
    }
  }

  lemma NothingLeft(s: string)
    ensures IsFragmentText(s, |s|)
  {}

  lemma PieceAccepted(s: string, p: nat)
    requires p < |s| && s[p] != '/'
    ensures match PieceAt(s, p, true)
            case BadPiece(_, _) => !IsFragmentText(s, p)
            case Piece(_, next) => IsFragmentText(s, p) <==> IsFragmentText(s, next)
  {
    hide IsFragmentText, PercentPiece;
    if s[p] == '%' {
      PercentAccepted(s, p);
    } else if NeedPercentEncode(s[p]) {
      Unencoded(s, p);
    } else if s[p] == '~' {
      TildeStep(s, p);
      if Selects(s, p + 1) { PlainStep(s, p + 1); }
    } else {
      PlainStep(s, p);
    }
  }

  lemma Unencoded(s: string, p: nat)
    requires p < |s| && s[p] != '/' && s[p] != '%' && NeedPercentEncode(s[p])
    ensures !IsFragmentText(s, p)
  {}

  /** A unit that is neither '%' nor '~'. */
  lemma PlainStep(s: string, p: nat)
    requires p < |s| && s[p] != '%' && s[p] != '~' && (s[p] == '/' || !NeedPercentEncode(s[p]))
    ensures IsFragmentText(s, p) <==> IsFragmentText(s, p + 1)
  {
    LegalStep(s, p, 1);
    if LegalFrom(s, p + 1) { AsciiSpells(s[p] as int, Unpercent(s, p + 1)); }
  }

  lemma TildeStep(s: string, p: nat)
    requires p < |s| && s[p] == '~'
    ensures IsFragmentText(s, p) <==> Selects(s, p + 1) && IsFragmentText(s, p + 1)
  {
    LegalStep(s, p, 1);
    if LegalFrom(s, p + 1) { AsciiSpells(s[p] as int, Unpercent(s, p + 1)); }
  }

  /** The next unit, or the next triplet. */
  lemma LegalStep(s: string, p: nat, k: nat)
    requires p < |s|
    requires if IsTriplet(s, p) then k == 3 else k == 1 && s[p] != '%' && (s[p] == '/' || !NeedPercentEncode(s[p]))
    ensures p + k <= |s| && (LegalFrom(s, p) <==> LegalFrom(s, p + k))
    ensures LegalFrom(s, p) ==>
              Unpercent(s, p) == [if k == 3 then TripletByte(s, p) else s[p] as int] + Unpercent(s, p + k)
    ensures TildesFrom(s, p) <==> TildesFrom(s, p + k) && ((if k == 3 then TripletByte(s, p) else s[p] as int) == '~' as int ==> Selects(s, p + k))
  {
    hide TripletByte;
    if k == 3 {
      HexIsUnreserved(s[p + 1]);
      HexIsUnreserved(s[p + 2]);
      assert !IsTriplet(s, p + 1) && !IsTriplet(s, p + 2);
    }
  }

  lemma HexIsUnreserved(c: char)
    requires IsHex(c)
    ensures !NeedPercentEncode(c) && c != '%' && c != '~'
  {}

  lemma AsciiSpells(b: int, u: seq<int>)
    requires 0 <= b < 0x80
    ensures Spells([b] + u) <==> Spells(u)
  {
    var all := [b] + u;
    assert all[0..1] == [b] && all[1..] == u;
    Encodings.CharLengthIs(all, 0, 1);
  }

  // ---------- triplets ----------

  lemma PercentAccepted(s: string, p: nat)
    requires p < |s| && s[p] == '%'
    ensures match PercentPiece(s, p)
            case BadPiece(_, _) => !IsFragmentText(s, p)
            case Piece(_, next) => IsFragmentText(s, p) <==> IsFragmentText(s, next)
  {
    hide PercentBytes, TripletByte, IsFragmentText, IsTriplet;
    var n := Encodings.CharLength(PercentBytes(s, p, 4), 0);
    if n == 0 { Misspelt(s, p); } else if n == 1 { AsciiTriplet(s, p); } else { RunStep(s, p, n); }
  }

  lemma Misspelt(s: string, p: nat)
    requires p < |s| && s[p] == '%' && Encodings.CharLength(PercentBytes(s, p, 4), 0) == 0
    ensures !IsFragmentText(s, p)
  {
    hide PercentBytes, TripletByte, TildesFrom;
    OneTriplet(s, p);
    if LegalFrom(s, p) {
      Triplets(s, p, 4);
      LengthOfRun(PercentBytes(s, p, 4), Unpercent(s, p));
    }
  }

  lemma AsciiTriplet(s: string, p: nat)
    requires p < |s| && s[p] == '%' && Encodings.CharLength(PercentBytes(s, p, 4), 0) == 1
    ensures p + 3 <= |s| && var b := PercentBytes(s, p, 4)[0];
            match Unescape(s, b as char, p + 3)
            case BadPiece(_, _) => !IsFragmentText(s, p)
            case Piece(_, next) => IsFragmentText(s, p) <==> IsFragmentText(s, next)
  {
    hide PercentBytes, TripletByte, IsFragmentText;
    OneByte(PercentBytes(s, p, 4));
    OneTriplet(s, p);
    TripletStep(s, p);
    if Selects(s, p + 3) { PlainStep(s, p + 3); }
  }

  lemma OneTriplet(s: string, p: nat)
    requires p < |s| && s[p] == '%'
    ensures var b := PercentBytes(s, p, 4);
            if IsTriplet(s, p) then b != [] && b[0] == TripletByte(s, p) else b == [] && !LegalFrom(s, p)
  {}

  lemma OneByte(b: seq<int>)
    requires Encodings.CharLength(b, 0) == 1
    ensures b != [] && 0 <= b[0] < 0x80
  {
    assert b[0..1] == [b[0]];
  }

  lemma TripletStep(s: string, p: nat)
    requires p < |s| && IsTriplet(s, p) && TripletByte(s, p) < 0x80
    ensures IsFragmentText(s, p) <==> IsFragmentText(s, p + 3) && (TripletByte(s, p) == '~' as int ==> Selects(s, p + 3))
  {
    LegalStep(s, p, 3);
    if LegalFrom(s, p + 3) { AsciiSpells(TripletByte(s, p), Unpercent(s, p + 3)); }
  }

  /** The decoded text begins with the bytes of a run of triplets, behind which no tail byte stands. */
  lemma {:induction false} Triplets(s: string, p: nat, k: nat)
    requires p <= |s| && LegalFrom(s, p)
    ensures var b, u := PercentBytes(s, p, k), Unpercent(s, p);
            b <= u && (|b| == k || |u| == |b| || 0 <= u[|b|] < 0x80)
    decreases k
  {
    hide TripletByte;
    if 0 < k && IsTriplet(s, p) {
      LegalStep(s, p, 3);
      Triplets(s, p + 3, k - 1);
    }
  }

  lemma LengthOfRun(b: seq<int>, u: seq<int>)
    requires b != [] && b <= u && (|b| == 4 || |u| == |b| || 0 <= u[|b|] < 0x80) && |b| <= 4
    ensures Encodings.CharLength(u, 0) == Encodings.CharLength(b, 0)
  {
    var n := Encodings.CharLength(u, 0);
    forall k | 0 <= k <= |b| ensures u[0..k] == b[0..k] {}
    if 0 < n {
      assert n <= |b| by { RunEnds(u, |b|, n); }
      Encodings.CharLengthIs(b, 0, n);
    } else if 0 < Encodings.CharLength(b, 0) {
      Encodings.CharLengthIs(u, 0, Encodings.CharLength(b, 0));
    }
  }

  /** A character goes no further than its tail bytes. */
  lemma RunEnds(u: seq<int>, k: nat, n: nat)
    requires 0 < k <= |u| && n <= |u| && Encodings.IsUtf8Char(u[0..n]) && (k == 4 || |u| == k || 0 <= u[k] < 0x80)
    ensures n <= k
  {
    assert forall i | 0 <= i < n :: u[0..n][i] == u[i];
  }

  lemma RunStep(s: string, p: nat, n: nat)
    requires p < |s| && 1 < n == Encodings.CharLength(PercentBytes(s, p, 4), 0)
    ensures p + 3 * n <= |s| && (IsFragmentText(s, p) <==> IsFragmentText(s, p + 3 * n))
  {
    var b := PercentBytes(s, p, 4);
    HighBytes(b, n);
    Skip(s, p, 4, n);
    if LegalFrom(s, p) {
      Triplets(s, p, 4);
      LengthOfRun(b, Unpercent(s, p));
      assert Unpercent(s, p)[n..] == Unpercent(s, p + 3 * n);
    }
  }

  lemma HighBytes(b: seq<int>, n: nat)
    requires 1 < n == Encodings.CharLength(b, 0)
    ensures n <= |b| && forall i | 0 <= i < n :: 0x80 <= b[i]
  {
    var c := b[0..n];
    assert forall i | 0 <= i < n :: c[i] == b[i];
  }

  lemma {:induction false} Skip(s: string, p: nat, k: nat, n: nat)
    requires p <= |s| && n <= |PercentBytes(s, p, k)| && forall i | 0 <= i < n :: 0x80 <= PercentBytes(s, p, k)[i]
    ensures p + 3 * n <= |s| && (LegalFrom(s, p) <==> LegalFrom(s, p + 3 * n)) && (TildesFrom(s, p) <==> TildesFrom(s, p + 3 * n))
    ensures LegalFrom(s, p) ==> Unpercent(s, p) == PercentBytes(s, p, k)[..n] + Unpercent(s, p + 3 * n)
    decreases n
  {
    hide TripletByte, LegalFrom, TildesFrom, IsTriplet;
    if 0 < n {
      SkipOne(s, p, k);
      var b := PercentBytes(s, p + 3, k - 1);
      forall i | 0 <= i < n - 1 ensures 0x80 <= b[i] { assert b[i] == PercentBytes(s, p, k)[i + 1]; }
      Skip(s, p + 3, k - 1, n - 1);
      assert PercentBytes(s, p, k)[..n] == [PercentBytes(s, p, k)[0]] + b[..n - 1];
    }
  }

  lemma SkipOne(s: string, p: nat, k: nat)
    requires p <= |s| && PercentBytes(s, p, k) != [] && 0x80 <= PercentBytes(s, p, k)[0]
    ensures 0 < k && p + 3 <= |s| && (LegalFrom(s, p) <==> LegalFrom(s, p + 3)) && (TildesFrom(s, p) <==> TildesFrom(s, p + 3))
    ensures PercentBytes(s, p, k) == [PercentBytes(s, p, k)[0]] + PercentBytes(s, p + 3, k - 1)
    ensures LegalFrom(s, p) ==> Unpercent(s, p) == [PercentBytes(s, p, k)[0]] + Unpercent(s, p + 3)
  {
    hide TripletByte;
    LegalStep(s, p, 3);
  }
}
