/** Public keys as hex text (crates/core/src/types.rs). */
module PubKeyText {
  import opened Common
  import opened Slots

  const PK_LEN: nat := 48

  datatype KeyError = InvalidLength | InvalidString

  function HexDigit(n: nat): (c: char)
    requires n < 16
    ensures '0' <= c <= '9' || 'a' <= c <= 'f'
  {
    if n < 10 then '0' + n as char else 'a' + (n - 10) as char
  }

  function HexText(s: seq<Byte>): string {
    if s == [] then "" else [HexDigit(s[0] / 16), HexDigit(s[0] % 16)] + HexText(s[1..])
  }

  /** `Display` for `PubKey`. */
  function KeyText(k: PubKey): string {
    "0x" + HexText(k.bytes)
  }

  function Nibble(c: char): Option<nat> {
    if '0' <= c <= '9' then Some((c - '0') as nat)
    else if 'a' <= c <= 'f' then Some(10 + (c - 'a') as nat)
    else if 'A' <= c <= 'F' then Some(10 + (c - 'A') as nat)
    else None
  }

  /** `hex::decode`: pairs of hex digits of either case. */
  function DecodeHex(s: string): (r: Option<seq<Byte>>)
    ensures r.Some? ==> |s| == 2 * |r.value|
  {
    if s == "" then Some([])
    else if |s| == 1 || Nibble(s[0]).None? || Nibble(s[1]).None? then None
    else match DecodeHex(s[2..])
         case None => None
         case Some(rest) => Some([16 * NibbleValue(s[0]) + NibbleValue(s[1])] + rest)
  }

  function NibbleValue(c: char): (n: nat)
    requires Nibble(c).Some?
    ensures n < 16
  {
    Nibble(c).value
  }

  function Stripped(s: string): string {
    if |s| >= 2 && s[..2] == "0x" then s[2..] else s
  }

  function ParseKey(s: string): Result<PubKey, KeyError> {
    match DecodeHex(Stripped(s))
    case None => Err(InvalidString)
    case Some(bytes) => if |bytes| != PK_LEN then Err(InvalidLength) else Ok(PubKey(bytes))
  }

  function Lower(c: char): char {
    if 'A' <= c <= 'F' then 'a' + (c - 'A') else c
  }

  function LowerText(s: string): string {
    seq(|s|, i requires 0 <= i < |s| => Lower(s[i]))
  }

  lemma NibbleIsDigit(c: char, n: nat)
    requires n < 16
    ensures Nibble(c) == Some(n) <==> Lower(c) == HexDigit(n)
  {
  }

  /** Text decodes to bytes exactly when it is their hex text up to case. */
  lemma {:induction false} DecodeHexIff(s: string, b: seq<Byte>)
    ensures DecodeHex(s) == Some(b) <==> LowerText(s) == HexText(b)
    decreases s
  {
    hide Nibble, Lower, HexDigit;
    var low := LowerText(s);
    if b == [] {
      assert |low| == |s|;
    } else if |s| >= 2 {
      DecodeHexIff(s[2..], b[1..]);
      assert LowerText(s[2..]) == low[2..];
      NibbleIsDigit(s[0], b[0] / 16);
      NibbleIsDigit(s[1], b[0] % 16);
      assert low[0] == Lower(s[0]) && low[1] == Lower(s[1]);
      assert HexText(b)[2..] == HexText(b[1..]);
      assert low == [low[0], low[1]] + low[2..];
      assert b == [b[0]] + b[1..];
    } else {
      assert |HexText(b)| >= 2 && |low| == |s|;
    }
  }

  lemma {:induction false} HexIsLower(b: seq<Byte>)
    ensures LowerText(HexText(b)) == HexText(b)
  {
    if b != [] {
      HexIsLower(b[1..]);
      var s := HexText(b);
      forall i | 0 <= i < |s| ensures Lower(s[i]) == s[i] {
        if i >= 2 { assert s[i] == HexText(b[1..])[i - 2] == LowerText(HexText(b[1..]))[i - 2]; }
      }
    }
  }

  /** Two characters a byte, the high half first. */
  lemma {:induction false} HexPositions(b: seq<Byte>, i: nat)
    requires i < |b|
    ensures |HexText(b)| == 2 * |b|
    ensures HexText(b)[2 * i] == "0123456789abcdef"[b[i] / 16]
    ensures HexText(b)[2 * i + 1] == "0123456789abcdef"[b[i] % 16]
  {
    hide HexDigit;
    DigitIs(b[i] / 16);
    DigitIs(b[i] % 16);
    HexLength(b);
    if i > 0 {
      HexPositions(b[1..], i - 1);
      assert HexText(b) == [HexDigit(b[0] / 16), HexDigit(b[0] % 16)] + HexText(b[1..]);
    }
  }

  lemma {:induction false} HexLength(b: seq<Byte>)
    ensures |HexText(b)| == 2 * |b|
  {
    if b != [] { HexLength(b[1..]); }
  }

  lemma DigitIs(n: nat)
    requires n < 16
    ensures HexDigit(n) == "0123456789abcdef"[n]
  {
  }

  /** The bytes in hex, in any case, with or without a leading 0x. */
  predicate Spells(s: string, b: seq<Byte>) {
    LowerText(s) == HexText(b) || (|s| >= 2 && s[0] == '0' && s[1] == 'x' && LowerText(s[2..]) == HexText(b))
  }

  lemma SpellsIff(s: string, b: seq<Byte>)
    ensures DecodeHex(Stripped(s)) == Some(b) <==> Spells(s, b)
  {
    hide HexText;
    DecodeHexIff(Stripped(s), b);
    if |s| >= 2 {
      assert s[..2] == "0x" <==> s[0] == '0' && s[1] == 'x' by {
        assert s[..2] == "0x" ==> s[..2][0] == '0' && s[..2][1] == 'x';
      }
      if s[1] == 'x' && LowerText(s) == HexText(b) {
        assert LowerText(s)[1] == 'x';
        HexLength(b);
        NoX(b);
      }
    }
  }

  lemma NoX(b: seq<Byte>)
    requires |b| >= 1
    ensures |HexText(b)| >= 2 && HexText(b)[1] != 'x'
  {
  }

  /** Parsing accepts a key in any case, with or without the prefix, and nothing else. */
  lemma ParseKeyIff(s: string, k: PubKey)
    ensures ParseKey(s) == Ok(k) <==> |k.bytes| == 48 && Spells(s, k.bytes)
  {
    SpellsIff(s, k.bytes);
  }

  /** Hex of another length is one error, anything else the other. */
  lemma ParseKeyErrors(s: string)
    ensures ParseKey(s) == Err(InvalidLength) <==> exists b :: |b| != 48 && Spells(s, b)
    ensures ParseKey(s) == Err(InvalidString) <==> forall b :: !Spells(s, b)
  {
    hide Spells;
    forall b: seq<Byte> ensures DecodeHex(Stripped(s)) == Some(b) <==> Spells(s, b) { SpellsIff(s, b); }
  }

  /** The key parser undoes the key printer. */
  lemma PrintedKeyParses(k: PubKey)
    requires |k.bytes| == PK_LEN
    ensures ParseKey(KeyText(k)) == Ok(k)
  {
    assert KeyText(k)[..2] == "0x" && KeyText(k)[2..] == HexText(k.bytes);
    HexIsLower(k.bytes);
    ParseKeyIff(KeyText(k), k);
  }

  lemma PrintedKeysDiffer(a: PubKey, b: PubKey)
    requires |a.bytes| == PK_LEN && |b.bytes| == PK_LEN && KeyText(a) == KeyText(b)
    ensures a == b
  {
    PrintedKeyParses(a);
    PrintedKeyParses(b);
  }
}
