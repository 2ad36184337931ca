/**
  * The note string and the byte encodings around it. Hex text, the note's three fields and
  * the 32-byte values sent on chain are all positional digits; every pair of printers and
  * readers is proved inverse, with the exact condition where one is not.
  */
module Notes {
  import opened Field
  import opened Results

  // ---- Positional digits, most significant first ----

  function Power(base: nat, n: nat): nat {
    if n == 0 then 1 else base * Power(base, n - 1)
  }

  function Quot(base: nat, x: nat): nat
    requires base > 1
  {
    x / base
  }

  function Rem(base: nat, x: nat): (d: nat)
    requires base > 1
    ensures d < base
  {
    x % base
  }

  /** Exactly `n` digits of `x`. */
  function Digits(base: nat, x: nat, n: nat): (ds: seq<nat>)
    requires base > 1
    ensures |ds| == n && forall d <- ds :: d < base
    decreases n
  {
    if n == 0 then [] else Digits(base, Quot(base, x), n - 1) + [Rem(base, x)]
  }

  function ValueOf(base: nat, ds: seq<nat>): nat {
    if ds == [] then 0 else base * ValueOf(base, ds[..|ds| - 1]) + ds[|ds| - 1]
  }

  /** The first digit weighs most. */
  lemma {:induction false} LeadingDigit(base: nat, d: nat, ds: seq<nat>)
    ensures ValueOf(base, [d] + ds) == d * Power(base, |ds|) + ValueOf(base, ds)
  {
    if ds == [] {
      assert [d] + ds == [d];
      assert ValueOf(base, [d]) == base * ValueOf(base, []) + d;
    } else {
      var n := |ds| - 1;
      LeadingDigit(base, d, ds[..n]);
      assert ([d] + ds)[..|ds|] == [d] + ds[..n];
      Regroup(base, d, Power(base, n), ValueOf(base, ds[..n]));
      assert Power(base, n + 1) == base * Power(base, n);
      hide Power;
    }
  }

  lemma Regroup(base: nat, d: nat, p: nat, v: nat)
    ensures base * (d * p + v) == d * (base * p) + base * v
  {
  }

  lemma {:induction false} ValueOfDigits(base: nat, x: nat, n: nat)
    requires base > 1 && x < Power(base, n)
    ensures ValueOf(base, Digits(base, x, n)) == x
    decreases n
  {
    hide Quot, Rem;
    if n > 0 {
      QuotientBound(base, x, Power(base, n - 1));
      ValueOfDigits(base, Quot(base, x), n - 1);
      assert Digits(base, x, n)[..n - 1] == Digits(base, Quot(base, x), n - 1);
    }
  }

  lemma QuotRem(base: nat, x: nat)
    requires base > 1
    ensures base * Quot(base, x) + Rem(base, x) == x
  {
  }

  lemma QuotientBound(base: nat, x: nat, p: nat)
    requires base > 1 && x < base * p
    ensures Quot(base, x) < p && base * Quot(base, x) + Rem(base, x) == x
  {
    QuotRem(base, x);
    Multiple(base, Quot(base, x) - p);
    assert base * Quot(base, x) - base * p == (Quot(base, x) - p) * base;
  }

  lemma {:induction false} DigitsOfValue(base: nat, ds: seq<nat>)
    requires base > 1 && forall d <- ds :: d < base
    ensures ValueOf(base, ds) < Power(base, |ds|)
    ensures Digits(base, ValueOf(base, ds), |ds|) == ds
  {
    hide Quot, Rem;
    if ds != [] {
      var n := |ds| - 1;
      var v := ValueOf(base, ds[..n]);
      assert forall d <- ds[..n] :: d in ds;
      DigitsOfValue(base, ds[..n]);
      assert ds[n] in ds;
      DigitsSnoc(base, v, ds[n], n);
      ScaleBound(base, v, ds[n], Power(base, n));
      hide Digits;
      assert ds == ds[..n] + [ds[n]];
    }
  }

  lemma DigitsSnoc(base: nat, v: nat, d: nat, n: nat)
    requires base > 1 && d < base
    ensures Digits(base, base * v + d, n + 1) == Digits(base, v, n) + [d]
  {
    hide Quot, Rem;
    DivModUnique(base, v, d);
  }

  lemma ScaleBound(base: nat, v: nat, d: nat, p: nat)
    requires v < p && d < base
    ensures base * v + d < base * p
  {
    assert base * (v + 1) <= base * p;
  }

  lemma DivModUnique(base: nat, q: nat, d: nat)
    requires base > 1 && d < base
    ensures Quot(base, base * q + d) == q && Rem(base, base * q + d) == d
  {
    var x := base * q + d;
    assert q * base + d == x;
    ModUnique(base, q, d);
    QuotRem(base, x);
    Multiple(base, Quot(base, x) - q);
    assert base * Quot(base, x) - base * q == (Quot(base, x) - q) * base;
  }

  lemma {:induction false} ZerosLead(base: nat, x: nat, k: nat, n: nat)
    requires base > 1 && x < Power(base, k)
    ensures Digits(base, x, n + k) == seq(n, _ => 0) + Digits(base, x, k)
    decreases k, n
  {
    if k == 0 {
      ZeroDigits(base, n);
    } else {
      hide Quot, Rem;
      QuotientBound(base, x, Power(base, k - 1));
      ZerosLead(base, Quot(base, x), k - 1, n);
    }
  }

  lemma {:induction false} ZeroDigits(base: nat, n: nat)
    requires base > 1
    ensures Digits(base, 0, n) == seq(n, _ => 0)
  {
    if n > 0 {
      DivModUnique(base, 0, 0);
      ZeroDigits(base, n - 1);
    }
  }

  // ---- Hex text ----

  const HEX := "0123456789abcdef"

  predicate IsHexChar(ch: char) {
    '0' <= ch <= '9' || 'a' <= ch <= 'f'
  }

  function HexChar(d: nat): (ch: char)
    requires d < 16
    ensures IsHexChar(ch)
  {
    HEX[d]
  }

  function HexDigit(ch: char): (d: nat)
    requires IsHexChar(ch)
    ensures d < 16
  {
    if ch <= '9' then ch as nat - '0' as nat else ch as nat - 'a' as nat + 10
  }

  lemma HexCharDigit(d: nat, ch: char)
    ensures d < 10 ==> HexChar(d) == ('0' as nat + d) as char
    ensures 10 <= d < 16 ==> HexChar(d) == ('a' as nat + d - 10) as char
    ensures d < 16 ==> HexDigit(HexChar(d)) == d
    ensures IsHexChar(ch) ==> HexChar(HexDigit(ch)) == ch
  {
  }

  predicate IsHex(s: string) {
    forall ch <- s :: IsHexChar(ch)
  }

  function HexOf(ds: seq<nat>): string
    requires forall d <- ds :: d < 16
  {
    seq(|ds|, i requires 0 <= i < |ds| => assert ds[i] in ds; HexChar(ds[i]))
  }

  function DigitsOf(s: string): (ds: seq<nat>)
    requires IsHex(s)
    ensures |ds| == |s| && forall d <- ds :: d < 16
  {
    seq(|s|, i requires 0 <= i < |s| => assert s[i] in s; HexDigit(s[i]))
  }

  lemma HexInverse(ds: seq<nat>, s: string)
    requires forall d <- ds :: d < 16
    requires IsHex(s)
    ensures IsHex(HexOf(ds)) && DigitsOf(HexOf(ds)) == ds
    ensures HexOf(DigitsOf(s)) == s
  {
    assert forall i | 0 <= i < |ds| :: ds[i] in ds;
    forall i | 0 <= i < |ds| ensures HexDigit(HexChar(ds[i])) == ds[i] {
      HexCharDigit(ds[i], '0');
    }
    forall i | 0 <= i < |s| ensures HexChar(HexDigit(s[i])) == s[i] {
      assert s[i] in s;
      HexCharDigit(0, s[i]);
    }
  }

  /** `x.toString(16)`: no leading zeros, "0" for zero. */
  function ToString16(x: nat): (s: string)
    ensures s != ""
  {
    if x < 16 then [HexChar(x)] else ToString16(x / 16) + [HexChar(x % 16)]
  }

  /** `s.padStart(n, "0")`: longer strings are left alone. */
  function PadStart(s: string, n: nat): string {
    if |s| >= n then s else seq(n - |s|, _ => '0') + s
  }

  /** The 32-byte hex text of a value below 2^256 is its 64 hex digits. */
  lemma {:induction false} PaddedHex(x: nat, n: nat)
    requires n > 0 && x < Power(16, n)
    ensures |ToString16(x)| <= n
    ensures PadStart(ToString16(x), n) == HexOf(Digits(16, x, n))
  {
    QuotientBound(16, x, Power(16, n - 1));
    if x < 16 {
      assert x / 16 == 0 && x % 16 == x;
      ZeroDigits(16, n - 1);
      assert HexChar(0) == '0';
      assert PadStart(ToString16(x), n) == seq(n - 1, _ => '0') + [HexChar(x)];
    } else {
      assert n > 1 by {
        assert Power(16, 1) == 16;
      }
      PaddedHex(Quot(16, x), n - 1);
      assert PadStart(ToString16(x), n) == PadStart(ToString16(x / 16), n - 1) + [HexChar(x % 16)];
    }
  }

  /** `BigInt("0x" + s)`. */
  function BigIntOfHex(s: string): nat
    requires IsHex(s)
  {
    ValueOf(16, DigitsOf(s))
  }

  /** `toField(x).toString(16).padStart(64, "0")`. */
  function Hex32(r: Modulus, x: int): string {
    PadStart(ToString16(ToField(r, x)), 64)
  }

  lemma Hex32Reads(r: Modulus, x: int)
    requires r <= Power(16, 64)
    ensures |Hex32(r, x)| == 64 && IsHex(Hex32(r, x))
    ensures BigIntOfHex(Hex32(r, x)) == x % r
  {
    var v := ToField(r, x);
    PaddedHex(v, 64);
    HexInverse(Digits(16, v, 64), "");
    ValueOfDigits(16, v, 64);
  }

  /** A 64-digit text prints back exactly when its value is a canonical residue. */
  lemma Hex32Prints(r: Modulus, s: string)
    requires r <= Power(16, 64)
    requires |s| == 64 && IsHex(s)
    ensures Hex32(r, BigIntOfHex(s)) == s <==> BigIntOfHex(s) < r
  {
    var v := BigIntOfHex(s);
    Hex32Reads(r, v);
    if v < r {
      ResidueMod(r, v);
      PaddedHex(v, 64);
      DigitsOfValue(16, DigitsOf(s));
      HexInverse(DigitsOf(s), s);
    }
  }

  // ---- The note string ----

  const NOTE_PREFIX := "trexure-note-v1-"

  datatype Note = Note(secret: int, nullifier: int, amount: int, commitment: int, nullifierHash: int)

  /** The two hashes a note derives its public fields with. */
  datatype NoteHashes = NoteHashes(commit: (int, int, int) -> int, nul: int -> int)

  function WithDerived(r: Modulus, hs: NoteHashes, secret: int, nullifier: int, amount: int): Note {
    var s, n, a := ToField(r, secret), ToField(r, nullifier), ToField(r, amount);
    Note(s, n, a, hs.commit(s, n, a), hs.nul(n))
  }

  function SerializeNote(r: Modulus, note: Note): string {
    NOTE_PREFIX + Hex32(r, note.secret) + Hex32(r, note.nullifier) + Hex32(r, note.amount)
  }

  datatype NoteError = BadPrefix | BadPayload

  function ParseNote(r: Modulus, hs: NoteHashes, s: string): Result<Note, NoteError> {
    if !(NOTE_PREFIX <= s) then Err(BadPrefix)
    else
      var hex := s[|NOTE_PREFIX|..];
      if |hex| != 192 || !IsHex(hex) then Err(BadPayload)
      else Ok(WithDerived(r, hs, FieldOf(hex, 0), FieldOf(hex, 1), FieldOf(hex, 2)))
  }

  function FieldOf(hex: string, i: nat): nat
    requires |hex| == 192 && IsHex(hex) && i < 3
  {
    SliceIsHex(hex, i);
    BigIntOfHex(hex[64 * i..64 * i + 64])
  }

  lemma SliceIsHex(hex: string, i: nat)
    requires |hex| == 192 && IsHex(hex) && i < 3
    ensures IsHex(hex[64 * i..64 * i + 64])
  {
    forall ch <- hex[64 * i..64 * i + 64] ensures IsHexChar(ch) {
      assert ch in hex;
    }
  }

  /** A note string is the literal prefix and 64 hex digits each of the residues of secret, nullifier and amount. */
  lemma SerializedForm(r: Modulus, note: Note)
    requires r <= Power(16, 64)
    ensures SerializeNote(r, note) == "trexure-note-v1-" + HexOf(Digits(16, note.secret % r, 64))
                                      + HexOf(Digits(16, note.nullifier % r, 64))
                                      + HexOf(Digits(16, note.amount % r, 64))
  {
    PaddedHex(note.secret % r, 64);
    PaddedHex(note.nullifier % r, 64);
    PaddedHex(note.amount % r, 64);
    hide PadStart, HexOf, Digits, Power;
  }

  /**
    * A string is a note exactly if it is the prefix and 192 hex digits. Its fields are then the
    * residues of the three groups of 64, and its hashes those of secret, nullifier and amount in order.
    */
  lemma ParsedExactly(r: Modulus, hs: NoteHashes, s: string)
    ensures ParseNote(r, hs, s) == Err(BadPrefix) <==> !("trexure-note-v1-" <= s)
    ensures ParseNote(r, hs, s).Ok? <==> "trexure-note-v1-" <= s && |s| == 208 && IsHex(s[16..])
    ensures ParseNote(r, hs, s).Ok? ==>
              var note := ParseNote(r, hs, s).value;
              && note.secret == FieldOf(s[16..], 0) % r && note.nullifier == FieldOf(s[16..], 1) % r
              && note.amount == FieldOf(s[16..], 2) % r
              && note.commitment == hs.commit(note.secret, note.nullifier, note.amount)
              && note.nullifierHash == hs.nul(note.nullifier)
  {
    assert |NOTE_PREFIX| == 16;
    hide IsHexChar, FieldOf;
  }

  /** Parsing a serialised note gives the note back: its fields canonical, its hashes derived again. */
  lemma ParseSerialize(r: Modulus, hs: NoteHashes, secret: int, nullifier: int, amount: int)
    requires r <= Power(16, 64)
    ensures var note := WithDerived(r, hs, secret, nullifier, amount);
            ParseNote(r, hs, SerializeNote(r, note)) == Ok(note)
  {
    var note := WithDerived(r, hs, secret, nullifier, amount);
    var a, b, c := Hex32(r, note.secret), Hex32(r, note.nullifier), Hex32(r, note.amount);
    Hex32Reads(r, note.secret);
    Hex32Reads(r, note.nullifier);
    Hex32Reads(r, note.amount);
    ResidueMod(r, note.secret);
    ResidueMod(r, note.nullifier);
    ResidueMod(r, note.amount);
    hide Hex32, BigIntOfHex, Power, ToField, IsHexChar;
    var hex := SerializeNote(r, note)[|NOTE_PREFIX|..];
    assert hex == a + b + c;
    Slices(a, b, c);
  }

  lemma Slices(a: string, b: string, c: string)
    requires |a| == |b| == |c| == 64 && IsHex(a) && IsHex(b) && IsHex(c)
    ensures var hex := a + b + c; IsHex(hex) && hex[0..64] == a && hex[64..128] == b && hex[128..192] == c
  {
    hide IsHexChar;
  }

  /** Printing a parsed string gives the string back exactly when each field is below the field order. */
  lemma SerializeParse(r: Modulus, hs: NoteHashes, s: string)
    requires r <= Power(16, 64)
    ensures ParseNote(r, hs, s).Ok? ==>
              (SerializeNote(r, ParseNote(r, hs, s).value) == s
               <==> forall i: nat | i < 3 :: FieldOf(s[|NOTE_PREFIX|..], i) < r)
  {
    hide Hex32, Power, IsHexChar, BigIntOfHex, ToField;
    if ParseNote(r, hs, s).Ok? {
      var hex := s[|NOTE_PREFIX|..];
      var note := ParseNote(r, hs, s).value;
      Hex32OfResidue(r, FieldOf(hex, 0));
      Hex32OfResidue(r, FieldOf(hex, 1));
      Hex32OfResidue(r, FieldOf(hex, 2));
      forall i: nat | i < 3 ensures Hex32(r, FieldOf(hex, i)) == hex[64 * i..64 * i + 64] <==> FieldOf(hex, i) < r {
        SliceIsHex(hex, i);
        Hex32Prints(r, hex[64 * i..64 * i + 64]);
      }
      Hex32Reads(r, FieldOf(hex, 0));
      Hex32Reads(r, FieldOf(hex, 1));
      Hex32Reads(r, FieldOf(hex, 2));
      ThreeSlices(s, hex, Hex32(r, note.secret), Hex32(r, note.nullifier), Hex32(r, note.amount));
    }
  }

  lemma Hex32OfResidue(r: Modulus, x: int)
    ensures Hex32(r, ToField(r, x)) == Hex32(r, x)
  {
    ResidueMod(r, ToField(r, x));
  }

  lemma ThreeSlices(s: string, hex: string, a: string, b: string, c: string)
    requires s == NOTE_PREFIX + hex && |hex| == 192 && |a| == |b| == |c| == 64
    ensures NOTE_PREFIX + a + b + c == s <==> a == hex[0..64] && b == hex[64..128] && c == hex[128..192]
  {
    var whole := NOTE_PREFIX + a + b + c;
    var p := |NOTE_PREFIX|;
    assert whole[p..p + 64] == a && whole[p + 64..p + 128] == b && whole[p + 128..p + 192] == c;
    assert s[p..p + 64] == hex[0..64] && s[p + 64..p + 128] == hex[64..128] && s[p + 128..p + 192] == hex[128..192];
    assert hex == hex[0..64] + hex[64..128] + hex[128..192];
  }

  // ---- Bytes on chain ----

  /** `Buffer.from(hex, "hex")`: two characters a byte. */
  function BytesOfHex(s: string): (bs: seq<nat>)
    requires IsHex(s) && |s| % 2 == 0
    ensures 2 * |bs| == |s|
  {
    seq(|s| / 2, i requires 0 <= i < |s| / 2 => ByteAt(s, i))
  }

  function ByteAt(s: string, i: nat): nat
    requires IsHex(s) && 2 * i + 1 < |s|
  {
    assert s[2 * i] in s && s[2 * i + 1] in s;
    16 * HexDigit(s[2 * i]) + HexDigit(s[2 * i + 1])
  }

  lemma PairSplit(x: nat)
    ensures Quot(16, Quot(16, x)) == Quot(256, x)
    ensures 16 * Rem(16, Quot(16, x)) + Rem(16, x) == Rem(256, x)
  {
  }

  lemma BytesSnoc(s: string, hi: nat, lo: nat)
    requires IsHex(s) && |s| % 2 == 0 && hi < 16 && lo < 16
    ensures IsHex(s + [HexChar(hi), HexChar(lo)])
    ensures BytesOfHex(s + [HexChar(hi), HexChar(lo)]) == BytesOfHex(s) + [16 * hi + lo]
  {
    HexCharDigit(hi, '0');
    HexCharDigit(lo, '0');
    hide HexChar, HexDigit, IsHexChar;
    var whole := s + [HexChar(hi), HexChar(lo)];
    forall i: nat | 2 * i < |s| ensures ByteAt(whole, i) == ByteAt(s, i) {
      assert whole[2 * i] == s[2 * i] && whole[2 * i + 1] == s[2 * i + 1];
    }
  }

  /** Hex digits in pairs are base-256 digits. */
  lemma {:induction false} HexPairs(x: nat, n: nat)
    requires x < Power(256, n)
    ensures IsHex(HexOf(Digits(16, x, 2 * n)))
    ensures BytesOfHex(HexOf(Digits(16, x, 2 * n))) == Digits(256, x, n)
    decreases n
  {
    hide Quot, Rem, HexChar, HexDigit;
    HexInverse(Digits(16, x, 2 * n), "");
    if n > 0 {
      QuotientBound(256, x, Power(256, n - 1));
      PairSplit(x);
      HexPairs(Quot(256, x), n - 1);
      var hi, lo := Rem(16, Quot(16, x)), Rem(16, x);
      var rest := HexOf(Digits(16, Quot(256, x), 2 * n - 2));
      assert Digits(16, x, 2 * n) == Digits(16, Quot(256, x), 2 * n - 2) + [hi] + [lo];
      assert HexOf(Digits(16, x, 2 * n)) == rest + [HexChar(hi), HexChar(lo)];
      BytesSnoc(rest, hi, lo);
    }
  }

  /** `frBE`: a public signal as 32 big-endian bytes. */
  function FrBE(r: Modulus, x: int): seq<nat>
    requires r <= Power(16, 64)
  {
    Hex32Reads(r, x);
    BytesOfHex(Hex32(r, x))
  }

  /** `commitmentBytes`: the deposit leaf, printed without reduction. */
  function CommitmentHex(commitment: nat): string {
    PadStart(ToString16(commitment), 64)
  }

  /** `amount_to_fr_bytes`: sixteen zero bytes, then the i128's sixteen big-endian bytes. */
  function AmountToFrBytes(amount: nat): seq<nat> {
    seq(16, _ => 0) + Digits(256, amount, 16)
  }

  lemma {:induction false} PowerSquares(n: nat)
    ensures Power(16, 2 * n) == Power(256, n)
  {
    if n > 0 {
      PowerSquares(n - 1);
      assert Power(16, 2 * n) == 16 * (16 * Power(16, 2 * n - 2));
    }
  }

  /** Every 32-byte encoder writes the base-256 digits of the residue. */
  lemma FrBEBytes(r: Modulus, x: int)
    requires r <= Power(16, 64)
    ensures FrBE(r, x) == Digits(256, x % r, 32)
    ensures |FrBE(r, x)| == 32 && ValueOf(256, FrBE(r, x)) == x % r
  {
    var v := ToField(r, x);
    PowerSquares(32);
    PaddedHex(v, 64);
    HexPairs(v, 32);
    ValueOfDigits(256, v, 32);
  }

  /**
    * The amount the circuit publishes and the amount the contract encodes are the same
    * 32 bytes, for every i128 amount below the field order.
    */
  lemma AmountEncodersAgree(r: Modulus, amount: nat)
    requires r <= Power(16, 64)
    requires amount < r && amount < Power(256, 16)
    ensures FrBE(r, amount) == AmountToFrBytes(amount)
  {
    FrBEBytes(r, amount);
    ResidueMod(r, amount);
    ZerosLead(256, amount, 16, 16);
  }

  /**
    * A canonical commitment is one and the same 32-byte value in the deposit call, in the
    * proof's public encoding and in the claim's database lookup.
    */
  lemma CommitmentEncodersAgree(r: Modulus, commitment: nat)
    requires r <= Power(16, 64) && commitment < r
    ensures CommitmentHex(commitment) == Hex32(r, commitment)
    ensures IsHex(CommitmentHex(commitment)) && |CommitmentHex(commitment)| == 64
    ensures BytesOfHex(CommitmentHex(commitment)) == FrBE(r, commitment)
    ensures BigIntOfHex(CommitmentHex(commitment)) == commitment
  {
    ResidueMod(r, commitment);
    Hex32Reads(r, commitment);
  }
}
