/**
 * Base 64 with the standard alphabet and '=' padding (section 4 of RFC 4648),
 * as Convert.FromBase64String decodes it: the characters ' ', '\t', '\r' and
 * '\n' are skipped wherever they occur, the remaining text must be a whole
 * number of four-character quanta, and the bits of the final quantum that do
 * not make a whole byte are ignored.
 */
module Base64 {
  import opened Wrappers
  import Seqs

  type byte = x: int | 0 <= x < 256
  type Sextet = x: int | 0 <= x < 64

  const Pad: char := '='

  predicate IsAlphabetChar(c: char) {
    ('A' <= c <= 'Z') || ('a' <= c <= 'z') || ('0' <= c <= '9') || c == '+' || c == '/'
  }

  /** Value of an alphabet character (Table 1 of RFC 4648). */
  function CharToSextet(c: char): Sextet
    requires IsAlphabetChar(c)
  {
    if 'A' <= c <= 'Z' then c as int - 'A' as int
    else if 'a' <= c <= 'z' then c as int - 'a' as int + 26
    else if '0' <= c <= '9' then c as int - '0' as int + 52
    else if c == '+' then 62
    else 63
  }

  /** Alphabet character of a 6-bit value; CharToSextet undoes it. */
  function SextetToChar(v: Sextet): (c: char)
    ensures IsAlphabetChar(c) && CharToSextet(c) == v
  {
    if v < 26 then ('A' as int + v) as char
    else if v < 52 then ('a' as int + v - 26) as char
    else if v < 62 then ('0' as int + v - 52) as char
    else if v == 62 then '+'
    else '/'
  }

  /** The characters Convert.FromBase64String skips. */
  predicate IsSkipped(c: char) {
    c == ' ' || c == '\t' || c == '\r' || c == '\n'
  }

  /** `s` without its skipped characters, the others kept in order. */
  function StripWhiteSpace(s: string): (t: string)
    ensures forall i :: 0 <= i < |t| ==> !IsSkipped(t[i])
    ensures (forall i :: 0 <= i < |s| ==> !IsSkipped(s[i])) ==> t == s
  {
    if s == [] then []
    else if IsSkipped(s[0]) then StripWhiteSpace(s[1..])
    else [s[0]] + StripWhiteSpace(s[1..])
  }

  /**
   * Stripping works character by character: it keeps a character exactly
   * when it is not skipped, and keeps the order and repeats of the rest.
   */
  lemma {:induction false} StripWhiteSpaceAppend(a: string, b: string)
    ensures StripWhiteSpace(a + b) == StripWhiteSpace(a) + StripWhiteSpace(b)
    decreases |a|
  {
    if a != [] {
      Seqs.HeadTailAppend(a, b);
      StripWhiteSpaceAppend(a[1..], b);
      if !IsSkipped(a[0]) {
        assert StripWhiteSpace(a + b) == [a[0]] + StripWhiteSpace(a[1..] + b);
        assert StripWhiteSpace(a) == [a[0]] + StripWhiteSpace(a[1..]);
      }
    } else {
      assert a + b == b;
    }
  }

  /**
   * Reference definition of well-formed input once skipped characters are
   * gone: whole quanta, alphabet characters only, except that the last one
   * or two characters may be padding.
   */
  predicate WellFormed(t: string) {
    && |t| % 4 == 0
    && (forall i :: 0 <= i < |t| - 2 ==> IsAlphabetChar(t[i]))
    && (|t| > 0 ==>
          || (IsAlphabetChar(t[|t| - 2]) && (IsAlphabetChar(t[|t| - 1]) || t[|t| - 1] == Pad))
          || (t[|t| - 2] == Pad && t[|t| - 1] == Pad))
  }

  /** The input Convert.FromBase64String accepts. */
  predicate IsBase64(s: string) {
    WellFormed(StripWhiteSpace(s))
  }

  predicate AllAlphabet(q: string) {
    forall i :: 0 <= i < |q| ==> IsAlphabetChar(q[i])
  }

  /** The three bytes a quantum of four alphabet characters carries. */
  function DecodeFull(q: string): (b: seq<byte>)
    requires |q| == 4 && AllAlphabet(q)
    ensures |b| == 3
  {
    var s0, s1, s2, s3 := CharToSextet(q[0]), CharToSextet(q[1]), CharToSextet(q[2]), CharToSextet(q[3]);
    [s0 * 4 + s1 / 16, (s1 % 16) * 16 + s2 / 4, (s2 % 4) * 64 + s3]
  }

  /** The final quantum, which may end in one or two padding characters. */
  function DecodeFinal(q: string): Option<seq<byte>>
    requires |q| == 4
  {
    if AllAlphabet(q) then Some(DecodeFull(q))
    else if AllAlphabet(q[..3]) && q[3] == Pad then
      var s0, s1, s2 := CharToSextet(q[0]), CharToSextet(q[1]), CharToSextet(q[2]);
      Some([s0 * 4 + s1 / 16, (s1 % 16) * 16 + s2 / 4])
    else if AllAlphabet(q[..2]) && q[2] == Pad && q[3] == Pad then
      var s0, s1 := CharToSextet(q[0]), CharToSextet(q[1]);
      Some([s0 * 4 + s1 / 16])
    else None
  }

  /** Decoding of text with no skipped characters left in it. */
  function DecodeStrict(t: string): Option<seq<byte>>
    decreases |t|
  {
    if |t| % 4 != 0 then None
    else if |t| == 0 then Some([])
    else if |t| == 4 then DecodeFinal(t)
    else if !AllAlphabet(t[..4]) then None
    else match DecodeStrict(t[4..])
      case None => None
      case Some(rest) => Some(DecodeFull(t[..4]) + rest)
  }

  /** Convert.FromBase64String: None where it throws a FormatException. */
  function Decode(s: string): Option<seq<byte>> {
    DecodeStrict(StripWhiteSpace(s))
  }

  /** The four characters encoding three bytes. */
  function EncodeFull(b0: byte, b1: byte, b2: byte): (q: string)
    ensures |q| == 4 && AllAlphabet(q)
  {
    [SextetToChar(b0 / 4), SextetToChar((b0 % 4) * 16 + b1 / 16),
     SextetToChar((b1 % 16) * 4 + b2 / 64), SextetToChar(b2 % 64)]
  }

  /** The final quantum, padded when fewer than three bytes remain. */
  function EncodeFinal(b: seq<byte>): (q: string)
    requires 1 <= |b| <= 3
    ensures |q| == 4
  {
    if |b| == 3 then EncodeFull(b[0], b[1], b[2])
    else if |b| == 2 then
      [SextetToChar(b[0] / 4), SextetToChar((b[0] % 4) * 16 + b[1] / 16), SextetToChar((b[1] % 16) * 4), Pad]
    else
      [SextetToChar(b[0] / 4), SextetToChar((b[0] % 4) * 16), Pad, Pad]
  }

  /** Convert.ToBase64String: the canonical encoding of `b`. */
  function Encode(b: seq<byte>): (s: string)
    ensures |s| == 4 * ((|b| + 2) / 3)
    ensures forall i :: 0 <= i < |s| ==> IsAlphabetChar(s[i]) || s[i] == Pad
  {
    if |b| == 0 then []
    else if |b| <= 3 then EncodeFinal(b)
    else EncodeFull(b[0], b[1], b[2]) + Encode(b[3..])
  }

  lemma FullRoundTrip(b0: byte, b1: byte, b2: byte)
    ensures DecodeFull(EncodeFull(b0, b1, b2)) == [b0, b1, b2]
  {
    var s0, s1, s2, s3 := b0 / 4, (b0 % 4) * 16 + b1 / 16, (b1 % 16) * 4 + b2 / 64, b2 % 64;
    assert s1 / 16 == b0 % 4 && s1 % 16 == b1 / 16;
    assert s2 / 4 == b1 % 16 && s2 % 4 == b2 / 64;
    var q := EncodeFull(b0, b1, b2);
    assert CharToSextet(q[0]) == s0 && CharToSextet(q[1]) == s1;
    assert CharToSextet(q[2]) == s2 && CharToSextet(q[3]) == s3;
    assert DecodeFull(q) == [s0 * 4 + s1 / 16, (s1 % 16) * 16 + s2 / 4, (s2 % 4) * 64 + s3];
  }

  lemma FinalRoundTrip(b: seq<byte>)
    requires 1 <= |b| <= 3
    ensures DecodeFinal(EncodeFinal(b)) == Some(b)
  {
    var q := EncodeFinal(b);
    if |b| == 3 {
      FullRoundTrip(b[0], b[1], b[2]);
      assert q == EncodeFull(b[0], b[1], b[2]) && b == [b[0], b[1], b[2]];
    } else if |b| == 2 {
      assert !AllAlphabet(q) by { assert !IsAlphabetChar(q[3]); }
      assert CharToSextet(q[0]) == b[0] / 4;
      assert CharToSextet(q[1]) == (b[0] % 4) * 16 + b[1] / 16;
      assert CharToSextet(q[2]) == (b[1] % 16) * 4;
      assert AllAlphabet(q[..3]) by {
        assert q[..3][0] == q[0] && q[..3][1] == q[1] && q[..3][2] == q[2];
      }
      assert CharToSextet(q[0]) * 4 + CharToSextet(q[1]) / 16 == b[0];
      assert (CharToSextet(q[1]) % 16) * 16 + CharToSextet(q[2]) / 4 == b[1];
      assert b == [b[0], b[1]];
    } else {
      assert !AllAlphabet(q) by { assert !IsAlphabetChar(q[3]); }
      assert !AllAlphabet(q[..3]) by { assert !IsAlphabetChar(q[..3][2]); }
      assert CharToSextet(q[0]) == b[0] / 4;
      assert AllAlphabet(q[..2]) by {
        assert q[..2][0] == q[0] && q[..2][1] == q[1];
      }
      assert CharToSextet(q[1]) == (b[0] % 4) * 16;
      assert CharToSextet(q[0]) * 4 + CharToSextet(q[1]) / 16 == b[0];
      assert b == [b[0]];
    }
  }

  /** A leading quantum of alphabet characters decodes to its three bytes, ahead of the rest. */
  lemma DecodeStrictStep(q: string, r: string)
    requires |q| == 4 && AllAlphabet(q) && |r| >= 4
    ensures DecodeStrict(q + r) == match DecodeStrict(r)
      case None => None
      case Some(rest) => Some(DecodeFull(q) + rest)
  {
    var t := q + r;
    assert t[..4] == q && t[4..] == r;
    assert |t| % 4 == |r| % 4;
  }

  /** Encoding peels off three bytes at a time. */
  lemma EncodeStep(b: seq<byte>)
    requires |b| > 3
    ensures Encode(b) == EncodeFull(b[0], b[1], b[2]) + Encode(b[3..])
  {
  }

  /** The round trip extends from the bytes after the first three to all of them. */
  lemma DecodeStrictEncodeStep(b: seq<byte>)
    requires |b| > 3 && DecodeStrict(Encode(b[3..])) == Some(b[3..])
    ensures DecodeStrict(Encode(b)) == Some(b)
  {
    var q, r := EncodeFull(b[0], b[1], b[2]), Encode(b[3..]);
    assert |b[3..]| >= 1;
    EncodeStep(b);
    DecodeStrictStep(q, r);
    FullRoundTrip(b[0], b[1], b[2]);
    Seqs.SplitThree(b);
  }

  lemma {:induction false} DecodeStrictEncode(b: seq<byte>)
    ensures DecodeStrict(Encode(b)) == Some(b)
    decreases |b|
  {
    if |b| == 0 {
    } else if |b| <= 3 {
      FinalRoundTrip(b);
    } else {
      DecodeStrictEncode(b[3..]);
      DecodeStrictEncodeStep(b);
    }
  }

  /** Decoding undoes encoding: every byte sequence survives the round trip. */
  lemma DecodeEncode(b: seq<byte>)
    ensures Decode(Encode(b)) == Some(b)
  {
    var s := Encode(b);
    assert forall i :: 0 <= i < |s| ==> !IsSkipped(s[i]);
    DecodeStrictEncode(b);
  }

  lemma {:induction false} DecodeStrictWellFormed(t: string)
    ensures DecodeStrict(t).Some? <==> WellFormed(t)
    decreases |t|
  {
    if |t| % 4 != 0 || |t| == 0 {
    } else if |t| == 4 {
      if DecodeStrict(t).Some? {
        assert WellFormed(t);
      }
      if WellFormed(t) {
        assert IsAlphabetChar(t[0]) && IsAlphabetChar(t[1]);
        if t[3] == Pad {
          if t[2] == Pad {
            assert AllAlphabet(t[..2]);
          } else {
            assert AllAlphabet(t[..3]);
          }
        } else {
          assert AllAlphabet(t);
        }
      }
    } else {
      DecodeStrictWellFormed(t[4..]);
      var r := t[4..];
      assert forall i :: 0 <= i < |r| ==> r[i] == t[i + 4];
      if WellFormed(t) {
        assert AllAlphabet(t[..4]) by {
          forall i | 0 <= i < 4 ensures IsAlphabetChar(t[..4][i]) {
            assert t[..4][i] == t[i];
          }
        }
        assert WellFormed(r);
      }
      if DecodeStrict(t).Some? {
        assert AllAlphabet(t[..4]) && WellFormed(r);
        forall i | 0 <= i < |t| - 2 ensures IsAlphabetChar(t[i]) {
          if i < 4 {
            assert t[i] == t[..4][i];
          } else {
            assert t[i] == r[i - 4];
          }
        }
      }
    }
  }

  /**
   * Convert.FromBase64String succeeds exactly on input that is well formed
   * once the skipped characters are removed.
   */
  lemma DecodeSucceedsIff(s: string)
    ensures Decode(s).Some? <==> IsBase64(s)
  {
    DecodeStrictWellFormed(StripWhiteSpace(s));
  }

  /** A character that is neither alphabet, padding nor skipped makes decoding fail. */
  lemma {:induction false} ForeignCharRejected(s: string, k: nat)
    requires k < |s| && !IsAlphabetChar(s[k]) && s[k] != Pad && !IsSkipped(s[k])
    ensures Decode(s) == None
  {
    var t := StripWhiteSpace(s);
    StripKeeps(s, k);
    DecodeSucceedsIff(s);
  }

  /** Characters that are not skipped survive StripWhiteSpace. */
  lemma {:induction false} StripKeeps(s: string, k: nat)
    requires k < |s| && !IsSkipped(s[k])
    ensures s[k] in StripWhiteSpace(s)
  {
    if k > 0 {
      StripKeeps(s[1..], k - 1);
    }
  }
}
