/**
  The slug codec: a reversible map between a shortlink's 128-bit UUID and its
  URL-safe slug.

  The service calls the third-party `shortuuid` library for this. That library
  is not part of this model; what stands in for it here is the positional
  scheme it uses by default: the UUID as an integer, written in base 57 over
  the alphabet "23456789ABCDEFGHJKLMNPQRSTUVWXYZabcdefghijkmnopqrstuvwxyz"
  (most significant digit first), padded on the left with the zero digit '2'
  to 22 characters. Decoding reads the characters back as base-57 digits and
  fails (the library raises ValueError) on a character outside the alphabet
  or on a value that is not a 128-bit integer.
*/
module SlugCodec {
  import opened Wrappers

  /** Number of characters in the alphabet. */
  const Base: nat := 57

  /** Width every slug is padded to. */
  const SlugLength: nat := 22

  /** 2^128: identifiers are the integers below this bound. */
  const IdBound: nat := 0x1_0000_0000_0000_0000_0000_0000_0000_0000

  /** A UUID, as the 128-bit integer it stands for. */
  type Id = n: nat | n < IdBound

  /** The character that spells digit `d` (the sorted alphabet, without 0, 1, I, O and l). */
  function CharOf(d: nat): (c: char)
    requires d < Base
    ensures DigitOf(c) == Some(d)
  {
    if d < 8 then ('2' as int + d) as char
    else if d < 16 then ('A' as int + (d - 8)) as char
    else if d < 21 then ('J' as int + (d - 16)) as char
    else if d < 32 then ('P' as int + (d - 21)) as char
    else if d < 43 then ('a' as int + (d - 32)) as char
    else ('m' as int + (d - 43)) as char
  }

  /** The digit a character stands for, or None for a character outside the alphabet. */
  function DigitOf(c: char): (r: Option<nat>)
  {
    if '2' <= c <= '9' then Some(c as int - '2' as int)
    else if 'A' <= c <= 'H' then Some(c as int - 'A' as int + 8)
    else if 'J' <= c <= 'N' then Some(c as int - 'J' as int + 16)
    else if 'P' <= c <= 'Z' then Some(c as int - 'P' as int + 21)
    else if 'a' <= c <= 'k' then Some(c as int - 'a' as int + 32)
    else if 'm' <= c <= 'z' then Some(c as int - 'm' as int + 43)
    else None
  }

  /** A digit sequence in which every entry is a base-57 digit. */
  ghost predicate AreDigits(ds: seq<nat>)
  {
    forall i :: 0 <= i < |ds| ==> ds[i] < Base
  }

  /** The base-57 digits of `n`, most significant first, without leading zeros. */
  function ToDigits(n: nat): (ds: seq<nat>)
    ensures AreDigits(ds)
    ensures n == 0 <==> ds == []
    ensures ds != [] ==> ds[0] != 0
  {
    if n == 0 then [] else ToDigits(n / Base) + [n % Base]
  }

  /** The value of a digit sequence read most significant first (number * 57 + digit, left to right). */
  function FromDigits(ds: seq<nat>): nat
  {
    if ds == [] then 0 else FromDigits(ds[..|ds| - 1]) * Base + ds[|ds| - 1]
  }

  /** `k` zero digits. */
  function Zeros(k: nat): (zs: seq<nat>)
    ensures |zs| == k && forall i :: 0 <= i < k ==> zs[i] == 0
  {
    if k == 0 then [] else Zeros(k - 1) + [0]
  }

  /** Spells a digit sequence in the alphabet. */
  function Spell(ds: seq<nat>): (s: string)
    requires AreDigits(ds)
    ensures |s| == |ds|
  {
    if ds == [] then [] else Spell(ds[..|ds| - 1]) + [CharOf(ds[|ds| - 1])]
  }

  /** Reads a string back as digits; None as soon as one character is outside the alphabet. */
  function Read(s: string): (r: Option<seq<nat>>)
  {
    if s == [] then Some([])
    else match (Read(s[..|s| - 1]), DigitOf(s[|s| - 1]))
      case (Some(ds), Some(d)) => Some(ds + [d])
      case _ => None
  }

  /** The slug of an identifier: its digits, left-padded with zero digits to `SlugLength`. */
  function Encode(id: Id): string
  {
    var ds := ToDigits(id);
    Spell(if |ds| < SlugLength then Zeros(SlugLength - |ds|) + ds else ds)
  }

  /**
    The identifier a slug stands for. None when a character is outside the
    alphabet, or when the value read is 2^128 or more; every other string,
    of any length, decodes.
  */
  function Decode(s: string): Option<Id>
  {
    match Read(s)
    case None => None
    case Some(ds) => var n := FromDigits(ds); if n < IdBound then Some(n) else None
  }

  // ---------------------------------------------------------------------------
  // The round trip and its consequences

  function Pow(b: nat, k: nat): nat
  {
    if k == 0 then 1 else b * Pow(b, k - 1)
  }

  lemma {:induction false} ReadSpell(ds: seq<nat>)
    requires AreDigits(ds)
    ensures Read(Spell(ds)) == Some(ds)
  {
    if ds != [] {
      var init := ds[..|ds| - 1];
      ReadSpell(init);
      assert Spell(ds)[..|ds| - 1] == Spell(init);
      assert ds == init + [ds[|ds| - 1]];
    }
  }

  lemma {:induction false} FromToDigits(n: nat)
    ensures FromDigits(ToDigits(n)) == n
  {
    if n != 0 {
      var ds := ToDigits(n);
      assert ds[..|ds| - 1] == ToDigits(n / Base);
      FromToDigits(n / Base);
    }
  }

  /** Leading zero digits do not change a value (the padding is harmless). */
  lemma {:induction false} LeadingZeros(k: nat, ds: seq<nat>)
    ensures FromDigits(Zeros(k) + ds) == FromDigits(ds)
  {
    if ds == [] {
      assert Zeros(k) + ds == Zeros(k);
      ZerosValue(k);
    } else {
      var init := ds[..|ds| - 1];
      assert (Zeros(k) + ds)[..|Zeros(k) + ds| - 1] == Zeros(k) + init;
      LeadingZeros(k, init);
    }
  }

  lemma {:induction false} ZerosValue(k: nat)
    ensures FromDigits(Zeros(k)) == 0
  {
    if k != 0 {
      var z := Zeros(k - 1);
      assert Zeros(k) == z + [0];
      assert (z + [0])[..k - 1] == z;
      ZerosValue(k - 1);
    }
  }

  lemma {:induction false} DigitsBound(n: nat, k: nat)
    requires n < Pow(Base, k)
    ensures |ToDigits(n)| <= k
  {
    if n != 0 {
      assert k != 0;
      assert n / Base < Pow(Base, k - 1);
      DigitsBound(n / Base, k - 1);
    }
  }

  lemma IdFitsInSlug()
    ensures IdBound < Pow(Base, SlugLength)
  {
    // 57^1, 57^2, ..., 57^22, one multiplication at a time
    assert Pow(Base, 1) == 57;
    assert Pow(Base, 2) == 3249;
    assert Pow(Base, 3) == 185193;
    assert Pow(Base, 4) == 10556001;
    assert Pow(Base, 5) == 601692057;
    assert Pow(Base, 6) == 34296447249;
    assert Pow(Base, 7) == 1954897493193;
    assert Pow(Base, 8) == 111429157112001;
    assert Pow(Base, 9) == 6351461955384057;
    assert Pow(Base, 10) == 362033331456891249;
    assert Pow(Base, 11) == 20635899893042801193;
    assert Pow(Base, 12) == 1176246293903439668001;
    assert Pow(Base, 13) == 67046038752496061076057;
    assert Pow(Base, 14) == 3821624208892275481335249;
    assert Pow(Base, 15) == 217832579906859702436109193;
    assert Pow(Base, 16) == 12416457054691003038858224001;
    assert Pow(Base, 17) == 707738052117387173214918768057;
    assert Pow(Base, 18) == 40341068970691068873250369779249;
    assert Pow(Base, 19) == 2299440931329390925775271077417193;
    assert Pow(Base, 20) == 131068133085775282769190451412780001;
    assert Pow(Base, 21) == 7470883585889191117843855730528460057;
    assert Pow(Base, 22) == 425840364395683893717099776640122223249;
  }

  /** Every slug has the fixed length and uses only alphabet characters. */
  lemma {:induction false} EncodeShape(id: Id)
    ensures |Encode(id)| == SlugLength
    ensures Read(Encode(id)).Some?
  {
    IdFitsInSlug();
    DigitsBound(id, SlugLength);
    var ds := ToDigits(id);
    var padded := if |ds| < SlugLength then Zeros(SlugLength - |ds|) + ds else ds;
    ReadSpell(padded);
  }

  /** Decoding a slug gives back the identifier it was made from. */
  lemma {:induction false} DecodeEncode(id: Id)
    ensures Decode(Encode(id)) == Some(id)
  {
    var ds := ToDigits(id);
    var padded := if |ds| < SlugLength then Zeros(SlugLength - |ds|) + ds else ds;
    ReadSpell(padded);
    FromToDigits(id);
    if |ds| < SlugLength {
      LeadingZeros(SlugLength - |ds|, ds);
    }
  }

  /** No two identifiers share a slug. */
  lemma EncodeInjective(a: Id, b: Id)
    requires Encode(a) == Encode(b)
    ensures a == b
  {
    DecodeEncode(a);
    DecodeEncode(b);
  }

  /** A character outside the alphabet anywhere in the string makes decoding fail. */
  lemma {:induction false} DecodeRejectsForeignChar(s: string, i: nat)
    requires i < |s| && DigitOf(s[i]).None?
    ensures Decode(s) == None
  {
    ReadRejectsForeignChar(s, i);
  }

  lemma {:induction false} ReadRejectsForeignChar(s: string, i: nat)
    requires i < |s| && DigitOf(s[i]).None?
    ensures Read(s) == None
  {
    if i < |s| - 1 {
      ReadRejectsForeignChar(s[..|s| - 1], i);
    }
  }

  /**
    The range check is reached by strings of slug width: 22 copies of the
    last alphabet character are well-formed, but worth 57^22 - 1, which is
    2^128 or more, so they do not decode.
  */
  lemma DecodeRejectsOutOfRange()
    ensures var s := seq(SlugLength, _ => 'z'); |s| == SlugLength && Read(s).Some? && Decode(s) == None
  {
    var s := seq(SlugLength, _ => 'z');
    ReadTopDigits(SlugLength);
    TopDigitsValue(SlugLength);
    IdFitsInSlug();
  }

  /** A run of `k` characters `z` reads as `k` top digits. */
  lemma {:induction false} ReadTopDigits(k: nat)
    ensures Read(seq(k, _ => 'z')) == Some(seq(k, _ => Base - 1))
  {
    var z := seq(k, _ => 'z');
    if k == 0 {
      assert z == [];
      assert seq(k, _ => Base - 1) == [];
    } else {
      assert z[..k - 1] == seq(k - 1, _ => 'z');
      assert DigitOf(z[k - 1]) == Some(Base - 1);
      ReadTopDigits(k - 1);
      assert Read(z) == Some(seq(k - 1, _ => Base - 1) + [Base - 1]);
      assert seq(k - 1, _ => Base - 1) + [Base - 1] == seq(k, _ => Base - 1);
    }
  }

  /** `k` top digits are worth 57^k - 1, the largest value of that width. */
  lemma {:induction false} TopDigitsValue(k: nat)
    ensures FromDigits(seq(k, _ => Base - 1)) == Pow(Base, k) - 1
  {
    if k != 0 {
      assert seq(k, _ => Base - 1)[..k - 1] == seq(k - 1, _ => Base - 1);
      TopDigitsValue(k - 1);
    }
  }
}
