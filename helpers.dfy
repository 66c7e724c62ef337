/** `src/helpers.rs`: the `Match`/`Pairing` shapes, the mention text of a
    pairing, and the short checksum over a seed and a pairing. */
module Helpers {
  import opened Prelude
  import opened Seqs
  import opened UserIds

  /** A group of participants meeting together. */
  type Match<T> = seq<T>

  /** The matches of one round and the participants flagged as "imperfect". */
  datatype Pairing<T> = Pairing(matches: seq<Match<T>>, imperfect: seq<T>)

  /** The ping text of a user: `<@` then the decimal id then `>`. */
  function FormatId(id: UserId): (s: string)
    ensures |s| >= 4 && s[..2] == "<@" && s[|s| - 1] == '>'
    ensures AllDigits(s[2..|s| - 1]) && ParseUserId(s[2..|s| - 1]) == Some(id)
    ensures s[2] != '0'
  {
    var digits := Decimal(id);
    ParseDisplayedId(id);
    assert ("<@" + digits + ">")[2..|digits| + 2] == digits;
    "<@" + digits + ">"
  }

  /** The ping texts of several users, in order. */
  function FormatIds(ids: seq<UserId>): (r: seq<string>)
    ensures |r| == |ids| && forall k :: 0 <= k < |ids| ==> r[k] == FormatId(ids[k])
  {
    seq(|ids|, k requires 0 <= k < |ids| => FormatId(ids[k]))
  }

  /** The separator before the last member: a serial comma from three members on. */
  function LastSeparator(size: nat): string
  {
    if size > 2 then ", and " else " and "
  }

  /** One line of `format_pairs`: all members but the last joined by `, `, the
      last separator, then the last member. An empty match makes the source
      panic, so it is excluded. */
  function FormatMatch(p: Match<UserId>): string
    requires |p| >= 1
  {
    Join(FormatIds(p[..|p| - 1]), ", ") + LastSeparator(|p|) + FormatId(p[|p| - 1])
  }

  /** The lines of all matches, in match order. */
  function FormatMatches(pairs: seq<Match<UserId>>): (r: seq<string>)
    requires forall k :: 0 <= k < |pairs| ==> |pairs[k]| >= 1
    ensures |r| == |pairs| && forall k :: 0 <= k < |pairs| ==> r[k] == FormatMatch(pairs[k])
  {
    seq(|pairs|, k requires 0 <= k < |pairs| => FormatMatch(pairs[k]))
  }

  /** `format_pairs`: one line per match joined by newlines, with no trailing newline. */
  function FormatPairs(pairs: seq<Match<UserId>>): string
    requires forall k :: 0 <= k < |pairs| ==> |pairs[k]| >= 1
  {
    Join(FormatMatches(pairs), "\n")
  }

  /** A two-member match reads `<@a> and <@b>`. */
  lemma FormatTwo(a: UserId, b: UserId)
    ensures FormatMatch([a, b]) == FormatId(a) + " and " + FormatId(b)
  {
    assert [a, b][..1] == [a];
    assert FormatIds([a]) == [FormatId(a)];
  }

  /** A match of three or more reads as its first members joined by `, `, then
      `, and `, then its last member. */
  lemma FormatLarger(p: Match<UserId>)
    requires |p| >= 3
    ensures FormatMatch(p) ==
      Join(FormatIds(p[..|p| - 1]), ", ") + ", and " + FormatId(p[|p| - 1])
  {
  }

  /** No rendered line contains a newline, so every match is exactly one line
      of the text. */
  lemma FormatHasNoNewline(p: Match<UserId>)
    requires |p| >= 1
    ensures '\n' !in FormatMatch(p)
  {
    IdsHaveNoNewline(p[..|p| - 1]);
    JoinHasNoNewline(FormatIds(p[..|p| - 1]));
    IdHasNoNewline(p[|p| - 1]);
  }

  lemma {:induction false} JoinHasNoNewline(parts: seq<string>)
    requires forall k :: 0 <= k < |parts| ==> '\n' !in parts[k]
    ensures '\n' !in Join(parts, ", ")
  {
    if |parts| > 1 {
      JoinHasNoNewline(parts[1..]);
    }
  }

  lemma IdHasNoNewline(id: UserId)
    ensures '\n' !in FormatId(id)
  {
    var digits := Decimal(id);
    assert forall k :: 0 <= k < |digits| ==> IsDigit(digits[k]);
  }

  lemma IdsHaveNoNewline(ids: seq<UserId>)
    ensures forall j :: 0 <= j < |ids| ==> '\n' !in FormatIds(ids)[j]
  {
    forall j | 0 <= j < |ids|
      ensures '\n' !in FormatIds(ids)[j]
    {
      IdHasNoNewline(ids[j]);
    }
  }

  /** Splitting the rendered pairing at newlines gives back one line per match,
      in match order. */
  lemma FormatPairsLines(pairs: seq<Match<UserId>>)
    requires |pairs| >= 1
    requires forall k :: 0 <= k < |pairs| ==> |pairs[k]| >= 1
    ensures Split(FormatPairs(pairs), '\n') == FormatMatches(pairs)
  {
    var lines := FormatMatches(pairs);
    forall k | 0 <= k < |lines|
      ensures '\n' !in lines[k]
    {
      IdsHaveNoNewline(pairs[k][..|pairs[k]| - 1]);
      IdHasNoNewline(pairs[k][|pairs[k]| - 1]);
      JoinHasNoNewline(FormatIds(pairs[k][..|pairs[k]| - 1]));
    }
    SplitJoin(lines, '\n');
  }

  predicate IsLowerHexDigit(c: char)
  {
    '0' <= c <= '9' || 'a' <= c <= 'f'
  }

  /** The value of one lowercase hexadecimal digit. */
  function HexDigitValue(c: char): nat
    requires IsLowerHexDigit(c)
  {
    if c <= '9' then c as int - '0' as int else c as int - 'a' as int + 10
  }

  function HexDigit(d: nat): (c: char)
    requires d < 16
    ensures IsLowerHexDigit(c) && HexDigitValue(c) == d
  {
    if d < 10 then ('0' as int + d) as char else ('a' as int + d - 10) as char
  }

  predicate AllHex(s: string)
  {
    forall k :: 0 <= k < |s| ==> IsLowerHexDigit(s[k])
  }

  /** The number a string of lowercase hexadecimal digits stands for (leading
      zeros allowed). */
  function HexValue(s: string): nat
    requires AllHex(s)
  {
    if s == [] then 0 else HexValue(s[..|s| - 1]) * 16 + HexDigitValue(s[|s| - 1])
  }

  /** `format!("{:x}", h)`: lowercase hexadecimal without padding. Its first
      digit is `0` only for the number zero. */
  function LowerHex(h: nat): (s: string)
    ensures |s| >= 1 && AllHex(s)
    ensures s[0] == '0' <==> h == 0
  {
    if h < 16 then [HexDigit(h)] else LowerHex(h / 16) + [HexDigit(h % 16)]
  }

  /** The digits `{:x}` writes denote the number. */
  lemma {:induction false} LowerHexValue(h: nat)
    ensures HexValue(LowerHex(h)) == h
  {
    if h >= 16 {
      LowerHexValue(h / 16);
      var s := LowerHex(h);
      assert s[..|s| - 1] == LowerHex(h / 16);
    }
  }

  /** Leading zeros do not change the value of a hexadecimal text. */
  lemma {:induction false} HexValueLeadingZeros(z: nat, t: string)
    requires AllHex(t)
    ensures AllHex(seq(z, _ => '0') + t) && HexValue(seq(z, _ => '0') + t) == HexValue(t)
  {
    var zs: string := seq(z, _ => '0');
    var s := zs + t;
    if t == [] {
      assert s == zs;
      if z > 0 {
        HexValueLeadingZeros(z - 1, []);
        assert s[..|s| - 1] == seq(z - 1, _ => '0') + [];
      }
    } else {
      HexValueLeadingZeros(z, t[..|t| - 1]);
      assert s[..|s| - 1] == zs + t[..|t| - 1];
    }
  }

  /** The first `k` digits of the hexadecimal text are the leading digits of
      the number: with the other digits' place value `p`, the number lies
      between `v * p` and `(v + 1) * p` for the value `v` of those digits. */
  lemma {:induction false} LowerHexPrefix(h: nat, k: nat)
    requires 1 <= k <= |LowerHex(h)|
    ensures var v, p := HexValue(LowerHex(h)[..k]), Pow16(|LowerHex(h)| - k);
      v * p <= h < v * p + p
  {
    var s := LowerHex(h);
    if k == |s| {
      assert s[..k] == s;
      LowerHexValue(h);
    } else {
      var t := LowerHex(h / 16);
      assert s == t + [HexDigit(h % 16)];
      assert s[..k] == t[..k];
      LowerHexPrefix(h / 16, k);
      assert Pow16(|s| - k) == 16 * Pow16(|t| - k);
      ScaleBounds(h, HexValue(t[..k]), Pow16(|t| - k));
    }
  }

  /** Bounds on `h / 16` scale to bounds on `h`. */
  lemma ScaleBounds(h: nat, v: nat, p: nat)
    requires v * p <= h / 16 < v * p + p
    ensures v * (16 * p) <= h < v * (16 * p) + 16 * p
  {
    var x := v * p;
    assert v * (16 * p) == 16 * x;
    assert h / 16 <= x + p - 1;
  }

  /** The hexadecimal text has at least `digits` digits exactly when the hash
      is at least 16^(digits - 1). */
  lemma {:induction false} LowerHexLength(h: nat, digits: nat)
    requires digits >= 2
    ensures |LowerHex(h)| >= digits <==> h >= Pow16(digits - 1)
  {
    if digits > 2 && h >= 16 {
      LowerHexLength(h / 16, digits - 1);
      assert h / 16 >= Pow16(digits - 2) <==> h >= 16 * Pow16(digits - 2);
    }
  }

  function Pow16(n: nat): (r: nat)
    ensures r >= 1
  {
    if n == 0 then 1 else 16 * Pow16(n - 1)
  }

  /** The truncation in `checksum_pairing` as written: the first eight
      characters of the unpadded text. Slicing a shorter text panics. */
  function ChecksumAsWritten(h: u64): (s: string)
    requires |LowerHex(h)| >= 8
    ensures |s| == 8 && s == LowerHex(h)[..8]
  {
    LowerHex(h)[..8]
  }

  /** The eight characters the slice keeps are the eight leading hexadecimal
      digits of the hash: the hash lies between their value times the place
      value of the dropped digits and the next multiple of it. */
  lemma ChecksumAsWrittenLeadingDigits(h: u64)
    requires |LowerHex(h)| >= 8
    ensures var v, p := HexValue(ChecksumAsWritten(h)), Pow16(|LowerHex(h)| - 8);
      v * p <= h < v * p + p
  {
    LowerHexPrefix(h, 8);
  }

  /** The slice panics for every hash below 16^7 = 0x1000_0000. */
  lemma ChecksumAsWrittenPanics(h: u64)
    ensures |LowerHex(h)| < 8 <==> h < 0x1000_0000
  {
    LowerHexLength(h, 8);
    assert Pow16(7) == 0x1000_0000;
  }

  /** Left-pads `s` with `c` to width `w`, as `format!("{:08x}")` pads. */
  function PadLeft(s: string, w: nat, c: char): (r: string)
    ensures |r| == if |s| >= w then |s| else w
    ensures |s| >= w ==> r == s
    ensures forall k :: 0 <= k < |r| ==> r[k] == c || r[k] in s
    ensures r[|r| - |s|..] == s && forall k :: 0 <= k < |r| - |s| ==> r[k] == c
  {
    if |s| >= w then s else seq(w - |s|, _ => c) + s
  }

  /** The corrected checksum: the hexadecimal text padded with zeros to eight
      digits before its first eight characters are taken. */
  function Checksum(h: u64): (s: string)
    ensures |s| == 8
    ensures forall k :: 0 <= k < 8 ==> IsLowerHexDigit(s[k])
    ensures '_' !in s && '\n' !in s
    ensures |LowerHex(h)| >= 8 ==> s == ChecksumAsWritten(h)
  {
    var hex := LowerHex(h);
    var padded := PadLeft(hex, 8, '0');
    assert forall k :: 0 <= k < |padded| ==> IsLowerHexDigit(padded[k]);
    padded[..8]
  }

  /** For a hash of at most eight hexadecimal digits, the corrected checksum is
      its hexadecimal text with zeros in front, and it still denotes the hash. */
  lemma ChecksumZeroPadded(h: u64)
    requires |LowerHex(h)| <= 8
    ensures Checksum(h) == seq(8 - |LowerHex(h)|, _ => '0') + LowerHex(h)
    ensures HexValue(Checksum(h)) == h
  {
    var hex := LowerHex(h);
    var padded := PadLeft(hex, 8, '0');
    assert padded == seq(8 - |hex|, _ => '0') + hex;
    assert padded[..8] == padded;
    HexValueLeadingZeros(8 - |hex|, hex);
    LowerHexValue(h);
  }

  /** The hash over a seed and a pairing (`DefaultHasher`, kept abstract). */
  type PairingHasher = (u64, seq<Match<UserId>>) -> u64

  /** `checksum_pairing` (imported by its callers as `checksum_matching`). */
  function ChecksumPairing(seed: u64, pairs: seq<Match<UserId>>, hash: PairingHasher): (s: string)
    ensures |s| == 8 && '_' !in s && '\n' !in s
  {
    Checksum(hash(seed, pairs))
  }
}
