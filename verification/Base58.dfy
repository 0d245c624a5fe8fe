/** Base58 with leading zeros kept as ones (base58.cpp). */
module Base58 {
  import opened Numbers
  import opened Options
  import opened Radix

  const ALPHABET: string :=
    "123456789" + ("ABCDEFGH" + "JKLMN" + "PQRSTUVWXYZ") + ("abcdefghijk" + "mnopqrstuvwxyz")

  type Byte = x: int | 0 <= x < 256

  // --- What the strings mean ----------------------------------------------------------------

  predicate IsSpace(c: char) {
    c == ' ' || c == '\t' || c == '\n' || c == '\U{0B}' || c == '\U{0C}' || c == '\r'
  }

  function Letter(k: nat): char
    requires k < 58
  {
    ALPHABET[k]
  }

  /** The place of a character in the alphabet from place `i` on, or 58. */
  function Find(c: char, i: nat): (r: nat)
    requires i <= 58
    ensures i <= r <= 58 && (r < 58 ==> Letter(r) == c)
    ensures r == 58 ==> forall j | i <= j < 58 :: Letter(j) != c
    decreases 58 - i
  {
    if i == 58 then 58 else if Letter(i) == c then i else Find(c, i + 1)
  }

  /** What is left of a std::string as a C string. */
  function CStr(s: string): (r: string)
    ensures |r| <= |s| && r == s[..|r|] && '\0' !in r
    ensures |r| < |s| ==> s[|r|] == '\0'
  {
    if s == [] || s[0] == '\0' then [] else
      var r := CStr(s[1..]);
      assert s[..|r| + 1] == [s[0]] + s[1..][..|r|];
      [s[0]] + r
  }

  function SkipSpaces(s: string): (r: string)
    ensures |r| <= |s| && r == s[|s| - |r|..] && (r != [] ==> !IsSpace(r[0]))
  {
    if s != [] && IsSpace(s[0]) then SkipSpaces(s[1..]) else s
  }

  /** The characters before the first space. */
  function Word(s: string): (r: string)
    ensures |r| <= |s| && r == s[..|r|] && (forall i | 0 <= i < |r| :: !IsSpace(r[i])) &&
            (|r| < |s| ==> IsSpace(s[|r|]))
  {
    if s == [] || IsSpace(s[0]) then [] else
      var r := Word(s[1..]);
      assert s[..|r| + 1] == [s[0]] + s[1..][..|r|];
      [s[0]] + r
  }

  /** A word with any surrounding spaces, and nothing else. */
  function Stripped(s: string): Option<string> {
    var t := SkipSpaces(s);
    if SkipSpaces(t[|Word(t)|..]) == [] then Some(Word(t)) else None
  }

  function CountLeading<T(==)>(s: seq<T>, x: T): (n: nat)
    ensures n <= |s| && (forall i | 0 <= i < n :: s[i] == x) && (n < |s| ==> s[n] != x)
  {
    if s == [] || s[0] != x then 0 else 1 + CountLeading(s[1..], x)
  }

  function Repeat<T>(x: T, n: nat): (r: seq<T>)
    ensures |r| == n && forall i | 0 <= i < n :: r[i] == x
  {
    seq(n, _ => x)
  }

  function Letters(s: seq<nat>): (r: string)
    requires Digits(s, 58)
    ensures |r| == |s| && forall i | 0 <= i < |s| :: r[i] == Letter(s[i])
  {
    seq(|s|, i requires 0 <= i < |s| => Letter(s[i]))
  }

  predicate AllDigits(s: string) {
    forall i | 0 <= i < |s| :: Find(s[i], 0) < 58
  }

  function Places(s: string): (r: seq<nat>)
    requires AllDigits(s)
    ensures |r| == |s| && Digits(r, 58) && forall i | 0 <= i < |s| :: r[i] == Find(s[i], 0)
  {
    seq(|s|, i requires 0 <= i < |s| => Find(s[i], 0))
  }

  function Bytes(s: seq<nat>): (r: seq<Byte>)
    requires Digits(s, 256)
    ensures |r| == |s| && forall i | 0 <= i < |s| :: r[i] == s[i]
  {
    seq(|s|, i requires 0 <= i < |s| => s[i])
  }

  function Naturals(s: seq<Byte>): (r: seq<nat>)
    ensures |r| == |s| && Digits(r, 256) && forall i | 0 <= i < |s| :: r[i] == s[i]
  {
    seq(|s|, i requires 0 <= i < |s| => s[i])
  }

  /** One '1' for each leading zero byte, then the number the bytes are in base 58. */
  function Encoded(v: seq<Byte>): string {
    var n := Val(Naturals(v), 256);
    MinimalOk(n, 58);
    Repeat('1', CountLeading(v, 0)) + Letters(Minimal(n, 58))
  }

  /** The bytes of a word of base 58 digits. */
  function DecodedWord(w: string): seq<Byte>
    requires AllDigits(w)
  {
    var n := Val(Places(w), 58);
    MinimalOk(n, 256);
    Repeat(0, CountLeading(w, '1')) + Bytes(Minimal(n, 256))
  }

  function Decoded(s: string): Option<seq<Byte>> {
    var w := Stripped(CStr(s));
    if w.Some? && AllDigits(w.value) then Some(DecodedWord(w.value)) else None
  }

  // --- The alphabet -------------------------------------------------------------------------

  function Code(k: nat): nat {
    if k < 9 then k + 49
    else if k < 17 then k + 56
    else if k < 22 then k + 57
    else if k < 33 then k + 58
    else if k < 44 then k + 64
    else k + 65
  }

  lemma FirstLetters(k: nat)
    requires k < 17
    ensures Letter(k) as int == Code(k)
  {
    if k < 9 {
      assert ALPHABET[k] == "123456789"[k];
    } else {
      assert ALPHABET[k] == "ABCDEFGH"[k - 9];
    }
  }

  lemma MiddleLetters(k: nat)
    requires 17 <= k < 33
    ensures Letter(k) as int == Code(k)
  {
    if k < 22 {
      assert ALPHABET[k] == "JKLMN"[k - 17];
    } else {
      assert ALPHABET[k] == "PQRSTUVWXYZ"[k - 22];
    }
  }

  lemma LastLetters(k: nat)
    requires 33 <= k < 58
    ensures Letter(k) as int == Code(k)
  {
    if k < 44 {
      assert ALPHABET[k] == "abcdefghijk"[k - 33];
    } else {
      assert ALPHABET[k] == "mnopqrstuvwxyz"[k - 44];
    }
  }

  /** The alphabet is in the order of character codes. */
  lemma LetterCode(k: nat)
    requires k < 58
    ensures Letter(k) as int == Code(k)
  {
    hide Letter, Code;
    if k < 17 {
      FirstLetters(k);
    } else if k < 33 {
      MiddleLetters(k);
    } else {
      LastLetters(k);
    }
  }

  /** Each letter is found at its place, is not a space, and only the first is '1'. */
  lemma LetterIs(k: nat)
    requires k < 58
    ensures Find(Letter(k), 0) == k && !IsSpace(Letter(k)) && Letter(k) != '\0' && (Letter(k) == '1' <==> k == 0)
  {
    hide Letter;
    LetterCode(k);
    LetterCode(Find(Letter(k), 0));
  }

  lemma DigitIs(c: char)
    requires Find(c, 0) < 58
    ensures Letter(Find(c, 0)) == c && !IsSpace(c) && c != '\0' && (c == '1' <==> Find(c, 0) == 0)
  {
    hide Letter;
    LetterIs(Find(c, 0));
  }

  // --- Round trips --------------------------------------------------------------------------

  /** A string of letters is a word of its own. */
  lemma {:induction false} PlainWord(w: string)
    requires forall i | 0 <= i < |w| :: !IsSpace(w[i]) && w[i] != '\0'
    ensures CStr(w) == w && Word(w) == w && SkipSpaces(w) == w
  {
    if w != [] {
      PlainWord(w[1..]);
    }
  }

  lemma {:induction false} CountSame<T, U>(s: seq<T>, x: T, t: seq<U>, y: U)
    requires |s| == |t| && forall i | 0 <= i < |s| :: s[i] == x <==> t[i] == y
    ensures CountLeading(s, x) == CountLeading(t, y)
  {
    if s != [] && s[0] == x {
      CountSame(s[1..], x, t[1..], y);
    }
  }

  lemma {:induction false} CountRepeat<T>(x: T, n: nat, s: seq<T>)
    requires s != [] ==> s[0] != x
    ensures CountLeading(Repeat(x, n) + s, x) == n
  {
    var t := Repeat(x, n) + s;
    if n > 0 {
      assert t[1..] == Repeat(x, n - 1) + s;
      CountRepeat(x, n - 1, s);
    }
  }

  /** Digits are their leading zeros and the minimal digits of their value. */
  lemma Normalized(s: seq<nat>, b: nat)
    requires b > 1 && Digits(s, b)
    ensures s == Repeat(0, CountLeading(s, 0)) + Minimal(Val(s, b), b)
  {
    hide Val, Minimal, CountLeading, Repeat;
    var z := CountLeading(s, 0);
    LeadingZeros(s);
    MinimalIs(s[z..], b);
    ValLeading(s[..z], s[z..], b);
  }

  lemma LeadingZeros(s: seq<nat>)
    ensures var z := CountLeading(s, 0); s == s[..z] + s[z..] && s[..z] == Repeat(0, z)
  {
    hide CountLeading;
  }

  lemma ValRepeat(z: nat, s: seq<nat>, b: nat)
    ensures Val(Repeat(0, z) + s, b) == Val(s, b)
  {
    ValLeading(Repeat(0, z), s, b);
  }

  /** An encoded string is a word whose places are zeros and the minimal digits. */
  lemma EncodedWord(z: nat, m: seq<nat>)
    requires Digits(m, 58) && (m != [] ==> m[0] != 0)
    ensures var w := Repeat('1', z) + Letters(m);
            && CStr(w) == w && Stripped(w) == Some(w) && AllDigits(w)
            && Places(w) == Repeat(0, z) + m && CountLeading(w, '1') == z
  {
    hide Letter, Find, IsSpace, CountLeading;
    var w := Repeat('1', z) + Letters(m);
    OneIsDigit();
    forall i | 0 <= i < |w|
      ensures !IsSpace(w[i]) && w[i] != '\0' && Find(w[i], 0) == if i < z then 0 else m[i - z]
    {
      if i >= z {
        LetterIs(m[i - z]);
      }
    }
    PlainWord(w);
    assert w[|w|..] == [];
    if m != [] {
      LetterIs(m[0]);
    }
    CountRepeat('1', z, Letters(m));
  }

  /** Encoding a byte string and decoding the result gives the byte string. */
  lemma DecodeEncode(v: seq<Byte>)
    ensures Decoded(Encoded(v)) == Some(v)
  {
    hide Val, Minimal, Letter, Find, CountLeading, CStr, Stripped, AllDigits;
    var n, z := Val(Naturals(v), 256), CountLeading(v, 0);
    MinimalOk(n, 58);
    MinimalOk(n, 256);
    var m := Minimal(n, 58);
    EncodedWord(z, m);
    ValRepeat(z, m, 58);
    Normalized(Naturals(v), 256);
    CountSame(v, 0, Naturals(v), 0);
    assert v == Repeat(0, z) + Bytes(Minimal(n, 256));
  }

  /** Decoding any accepted string and encoding the result gives the string without its spaces. */
  lemma EncodeDecode(s: string, v: seq<Byte>)
    requires Decoded(s) == Some(v)
    ensures Stripped(CStr(s)) == Some(Encoded(v))
  {
    hide Val, Minimal, Letter, Find, IsSpace, CountLeading, Stripped, CStr;
    var w := Stripped(CStr(s)).value;
    var p, c := Places(w), CountLeading(w, '1');
    var n := Val(p, 58);
    MinimalOk(n, 256);
    MinimalOk(n, 58);
    forall i | 0 <= i < |w|
      ensures Letter(p[i]) == w[i] && (w[i] == '1' <==> p[i] == 0)
    {
      DigitIs(w[i]);
    }
    CountSame(w, '1', p, 0);
    Normalized(p, 58);
    var m := Minimal(n, 256);
    CountRepeat(0 as Byte, c, Bytes(m));
    assert Naturals(v) == Repeat(0, c) + m;
    ValRepeat(c, m, 256);
    var e := Encoded(v);
    forall i | 0 <= i < |w|
      ensures e[i] == w[i]
    {
      LetterIs(0);
    }
    assert e == w;
    assert Stripped(CStr(s)) == Some(w);
  }

  // --- The buffers are large enough ---------------------------------------------------------

  lemma PowersOf58()
    ensures Pow(58, 8) == 128063081718016 && Pow(58, 11) == 24986644000165537792
    ensures Pow(58, 71) == 159730386663078066345306447337161584696769904898410078913243029577507397293846405390982563136983769384625594118558891106107392
  {
    assert Pow(58, 7) == 2207984167552;
    PowAdd(58, 8, 3);
    PowAdd(58, 8, 8);
    PowAdd(58, 16, 16);
    PowAdd(58, 32, 32);
    PowAdd(58, 64, 7);
  }

  lemma PowersOf256()
    ensures Pow(256, 8) == 18446744073709551616
    ensures Pow(256, 52) == 169230328010303641331690318856389386196071598838855992136870091590247882556495704531248437872567112920983350278405979725889536
  {
    PowAdd(256, 8, 8);
    PowAdd(256, 16, 16);
    PowAdd(256, 32, 16);
    PowAdd(256, 48, 4);
  }

  lemma EncodeFits(n: nat)
    ensures Pow(256, n) <= Pow(58, n * 138 / 100 + 1)
  {
    hide Pow;
    PowersOf58();
    PowersOf256();
    PowCompare(256, 58, 11, 8, n, n * 138 / 100 + 1);
  }

  lemma DecodeFits(n: nat)
    ensures Pow(58, n) <= Pow(256, n * 733 / 1000 + 1)
  {
    hide Pow;
    PowersOf58();
    PowersOf256();
    PowCompare(58, 256, 52, 71, n, n * 733 / 1000 + 1);
  }

  // --- The operations -----------------------------------------------------------------------

  /** The next digit fits: the digits read so far are a number below from^n. */
  lemma NextFits(s: seq<nat>, m: nat, n: nat, from: nat, limit: nat)
    requires from > 0 && Digits(s, from) && m < |s| <= n && Pow(from, n) <= limit
    ensures Val(s[..m + 1], from) == Val(s[..m], from) * from + s[m] < limit
  {
    hide Val, Pow;
    assert s[..m + 1] == s[..m] + [s[m]];
    ValAppend(s[..m], s[m], from);
    Radix.ValBound(s[..m + 1], from);
    PowMonoExp(from, m + 1, n);
  }

  /** The digits of a buffer after its leading zeros. */
  method Significant(buf: array<nat>, length: nat, base: nat) returns (r: seq<nat>)
    requires base > 1 && length <= buf.Length && Digits(buf[..], base)
    requires forall k | 0 <= k < buf.Length - length :: buf[k] == 0
    ensures r == Minimal(Val(buf[..], base), base) && Digits(r, base)
  {
    hide Val, Minimal;
    var it := buf.Length - length;
    while it < buf.Length && buf[it] == 0
      invariant 0 <= it <= buf.Length && forall k | 0 <= k < it :: buf[k] == 0
    {
      it := it + 1;
    }
    r := buf[it..];
    MinimalIs(r, base);
    ValLeading(buf[..it], r, base);
    assert buf[..it] + r == buf[..];
  }

  lemma Suffix<T>(s: seq<T>, z: nat, m: nat)
    requires z <= m < |s|
    ensures s[z..][..m - z] == s[z..m] && s[z..][..m + 1 - z] == s[z..m + 1] && s[z..][m - z] == s[m]
  {
  }

  method CountZeros(v: seq<Byte>) returns (zeroes: nat)
    ensures zeroes == CountLeading(v, 0)
  {
    zeroes := 0;
    while zeroes < |v| && v[zeroes] == 0
      invariant zeroes <= |v| && CountLeading(v, 0) == zeroes + CountLeading(v[zeroes..], 0)
    {
      assert v[zeroes..][1..] == v[zeroes + 1..];
      zeroes := zeroes + 1;
    }
  }

  method Translate(zeroes: nat, digits: seq<nat>) returns (str: string)
    requires Digits(digits, 58)
    ensures str == Repeat('1', zeroes) + Letters(digits)
  {
    hide Letter;
    str := Repeat('1', zeroes);
    var it := 0;
    while it < |digits|
      invariant 0 <= it <= |digits| && str == Repeat('1', zeroes) + Letters(digits)[..it]
    {
      str := str + [Letter(digits[it])];
      it := it + 1;
    }
    assert Letters(digits)[..it] == Letters(digits);
  }

  method EncodeBase58(v: seq<Byte>) returns (str: string)
    ensures str == Encoded(v)
  {
    hide Val, Minimal, Pow, Letter, CountLeading;
    ghost var s := Naturals(v);
    var zeroes := CountZeros(v);
    var p := zeroes;
    var size := (|v| - p) * 138 / 100 + 1;
    var b58 := new nat[size](_ => 0);
    var length: nat := 0;
    EncodeFits(|v| - p);
    ValZeros(b58[..], 58);
    assert s[zeroes..p] == [];
    ValEmpty(256);
    while p < |v|
      invariant zeroes <= p <= |v| && length <= size && Digits(b58[..], 58)
      invariant forall k | 0 <= k < size - length :: b58[k] == 0
      invariant Val(b58[..], 58) == Val(s[zeroes..p], 256)
    {
      Suffix(s, zeroes, p);
      NextFits(s[zeroes..], p - zeroes, |v| - zeroes, 256, Pow(58, size));
      length := MulAdd(b58, length, 256, 58, v[p]);
      p := p + 1;
    }
    var digits := Significant(b58, length, 58);
    ValLeading(s[..zeroes], s[zeroes..], 256);
    assert s == s[..zeroes] + s[zeroes..] && s[zeroes..p] == s[zeroes..];
    str := Translate(zeroes, digits);
  }

  /** The position after any spaces. */
  method SkipFrom(psz: string, start: nat) returns (p: nat)
    requires start <= |psz|
    ensures start <= p <= |psz| && psz[p..] == SkipSpaces(psz[start..])
  {
    hide IsSpace;
    p := start;
    while p < |psz| && IsSpace(psz[p])
      invariant start <= p <= |psz| && SkipSpaces(psz[p..]) == SkipSpaces(psz[start..])
    {
      assert psz[p..][1..] == psz[p + 1..];
      p := p + 1;
    }
  }

  method DecodeBase58(str: string) returns (r: Option<seq<Byte>>)
    ensures r == Decoded(str)
  {
    hide CStr, SkipSpaces, Word, DecodedWord, AllDigits;
    var psz := CStr(str);
    var p := SkipFrom(psz, 0);
    assert psz[0..] == psz;
    ghost var t := psz[p..];
    var digits, end := DecodeWord(psz, p);
    if digits == None {
      return None;
    }
    assert psz[end..] == t[|Word(t)|..];
    p := SkipFrom(psz, end);
    if p != |psz| {
      return None;
    }
    return digits;
  }

  method CountOnes(psz: string, start: nat) returns (zeroes: nat)
    requires start <= |psz|
    ensures zeroes == CountLeading(Word(psz[start..]), '1')
  {
    hide Letter, Find, IsSpace, Word;
    ghost var w := Word(psz[start..]);
    OneIsDigit();
    zeroes := 0;
    while start + zeroes < |psz| && psz[start + zeroes] == '1'
      invariant zeroes <= |w| && CountLeading(w, '1') == zeroes + CountLeading(w[zeroes..], '1')
    {
      assert psz[start..][zeroes] == '1';
      assert w[zeroes..][1..] == w[zeroes + 1..];
      zeroes := zeroes + 1;
    }
  }

  /** The bytes of the word at `start`, and where it ends. */
  method DecodeWord(psz: string, start: nat) returns (r: Option<seq<Byte>>, end: nat)
    requires start <= |psz|
    ensures r == if AllDigits(Word(psz[start..])) then Some(DecodedWord(Word(psz[start..]))) else None
    ensures r.Some? ==> end == start + |Word(psz[start..])|
  {
    hide Val, Minimal, Pow, Letter, Find, IsSpace, Word, CountLeading;
    ghost var w := Word(psz[start..]);
    var zeroes := CountOnes(psz, start);
    end := start + zeroes;
    var size := (|psz| - end) * 733 / 1000 + 1;
    var b256 := new nat[size](_ => 0);
    var length: nat := 0;
    ghost var n := |psz| - end;
    DecodeFits(n);
    ValZeros(b256[..], 256);
    ValEmpty(58);
    ghost var d: seq<nat> := [];
    while end < |psz| && !IsSpace(psz[end])
      invariant start + zeroes <= end <= start + |w| && length <= size && Digits(b256[..], 256)
      invariant forall k | 0 <= k < size - length :: b256[k] == 0
      invariant end == start + zeroes + |d| && PlacesFrom(w, zeroes, d)
      invariant Val(b256[..], 256) == Val(d, 58)
    {
      assert psz[start..][end - start] == psz[end] == w[end - start];
      var ch := Find(psz[end], 0);
      if ch == 58 {
        r := None;
        return;
      }
      ghost var d' := d + [ch];
      assert d'[..|d|] == d && d'[..|d| + 1] == d';
      NextFits(d', |d|, n, 58, Pow(256, size));
      length := MulAdd(b256, length, 58, 256, ch);
      d := d';
      end := end + 1;
    }
    assert end < |psz| ==> psz[start..][end - start] == psz[end];
    assert end == start + |w|;
    LeadingPlaces(w, zeroes, d);
    var bytes := Significant(b256, length, 256);
    r := Some(Repeat(0, zeroes) + Bytes(bytes));
  }

  /** The digits of a word from place `z` on. */
  predicate PlacesFrom(w: string, z: nat, d: seq<nat>) {
    z + |d| <= |w| && forall k | 0 <= k < |d| :: Find(w[z + k], 0) == d[k] < 58
  }

  lemma OneIsDigit()
    ensures !IsSpace('1') && Find('1', 0) == 0
  {
    hide Letter;
    LetterIs(0);
    LetterCode(0);
  }

  lemma LeadingPlaces(w: string, z: nat, d: seq<nat>)
    requires z + |d| == |w| && PlacesFrom(w, z, d) && (forall i | 0 <= i < z :: w[i] == '1')
    ensures AllDigits(w) && Val(Places(w), 58) == Val(d, 58)
  {
    hide Letter, Find, Val, IsSpace;
    OneIsDigit();
    forall i | 0 <= i < |w|
      ensures Find(w[i], 0) < 58
    {
      if i >= z {
        assert Find(w[z + (i - z)], 0) == d[i - z];
      }
    }
    assert Places(w) == Repeat(0, z) + d;
    ValRepeat(z, d, 58);
  }

  // --- Checksums ----------------------------------------------------------------------------

  type Hash = seq<Byte> -> seq<Byte>

  ghost predicate HashOk(h: Hash) {
    forall v: seq<Byte> :: |h(v)| == 32
  }

  function EncodedCheck(h: Hash, v: seq<Byte>): string
    requires |h(v)| == 32
  {
    Encoded(v + h(v)[..4])
  }

  ghost function DecodedCheck(h: Hash, s: string): Option<seq<Byte>>
    requires HashOk(h)
  {
    match Decoded(s)
    case None => None
    case Some(w) =>
      if |w| < 4 then None
      else
        var v := w[..|w| - 4];
        if h(v)[..4] == w[|w| - 4..] then Some(v) else None
  }

  /** The payload with the first four bytes of its hash, and nothing else, is what gets encoded. */
  lemma CheckedPayload(h: Hash, v: seq<Byte>)
    requires |h(v)| == 32
    ensures Decoded(EncodedCheck(h, v)) == Some(v + h(v)[..4])
  {
    hide Encoded, Decoded;
    DecodeEncode(v + h(v)[..4]);
  }

  /** A payload is accepted exactly if the bytes that were encoded are it and its own checksum. */
  lemma AcceptedIff(h: Hash, s: string, v: seq<Byte>)
    requires HashOk(h)
    ensures DecodedCheck(h, s) == Some(v) <==> Decoded(s) == Some(v + h(v)[..4])
  {
    hide Decoded;
    var w := v + h(v)[..4];
    assert w[..|w| - 4] == v && w[|w| - 4..] == h(v)[..4];
    if DecodedCheck(h, s) == Some(v) {
      var d := Decoded(s).value;
      assert d == d[..|d| - 4] + d[|d| - 4..];
    }
  }

  /** In terms of the bytes encoded; fewer than four are never accepted. */
  lemma AcceptedBytesIff(h: Hash, w: seq<Byte>, v: seq<Byte>)
    requires HashOk(h)
    ensures DecodedCheck(h, Encoded(w)) == Some(v) <==> w == v + h(v)[..4]
    ensures |w| < 4 ==> DecodedCheck(h, Encoded(w)) == None
  {
    hide Encoded, Decoded, DecodedCheck;
    DecodeEncode(w);
    AcceptedIff(h, Encoded(w), v);
    if DecodedCheck(h, Encoded(w)).Some? {
      AcceptedIff(h, Encoded(w), DecodedCheck(h, Encoded(w)).value);
    }
  }

  /** A payload under the checksum of another is accepted only if the two hashes agree in four bytes. */
  lemma ChangedPayload(h: Hash, v: seq<Byte>, other: seq<Byte>)
    requires HashOk(h)
    ensures DecodedCheck(h, Encoded(other + h(v)[..4])) ==
            if h(other)[..4] == h(v)[..4] then Some(other) else None
  {
    hide Encoded, Decoded, DecodedCheck;
    var w := other + h(v)[..4];
    AcceptedBytesIff(h, w, other);
    if DecodedCheck(h, Encoded(w)).Some? {
      var x := DecodedCheck(h, Encoded(w)).value;
      AcceptedBytesIff(h, w, x);
      assert x == w[..|w| - 4] == other && h(x)[..4] == w[|w| - 4..] == h(v)[..4];
    }
    if h(other)[..4] == h(v)[..4] {
      assert w == other + h(other)[..4];
    }
  }

  method EncodeBase58Check(h: Hash, v: seq<Byte>) returns (str: string)
    requires HashOk(h)
    ensures str == EncodedCheck(h, v)
    ensures Decoded(str) == Some(v + h(v)[..4])
  {
    hide Encoded, Decoded;
    var vch := v + h(v)[..4];
    str := EncodeBase58(vch);
    CheckedPayload(h, v);
  }

  method DecodeBase58Check(h: Hash, s: string) returns (r: Option<seq<Byte>>)
    requires HashOk(h)
    ensures r == DecodedCheck(h, s)
    ensures r.Some? ==> Decoded(s) == Some(r.value + h(r.value)[..4])
    ensures r.None? ==> forall v: seq<Byte> :: Decoded(s) != Some(v + h(v)[..4])
  {
    hide Decoded;
    forall v: seq<Byte>
      ensures DecodedCheck(h, s) == Some(v) <==> Decoded(s) == Some(v + h(v)[..4])
    {
      AcceptedIff(h, s, v);
    }
    var d := DecodeBase58(s);
    if d.None? || |d.value| < 4 {
      return None;
    }
    var v, check := d.value[..|d.value| - 4], d.value[|d.value| - 4..];
    if h(v)[..4] != check {
      return None;
    }
    return Some(v);
  }

  /** The checksummed form round trips for any hash. */
  lemma DecodeEncodeCheck(h: Hash, v: seq<Byte>)
    requires HashOk(h)
    ensures DecodedCheck(h, EncodedCheck(h, v)) == Some(v)
  {
    hide Encoded, Decoded;
    CheckedPayload(h, v);
    AcceptedIff(h, EncodedCheck(h, v), v);
  }

  lemma EncodeDecodeCheck(h: Hash, s: string, v: seq<Byte>)
    requires HashOk(h) && DecodedCheck(h, s) == Some(v)
    ensures Stripped(CStr(s)) == Some(EncodedCheck(h, v))
  {
    hide Encoded, Decoded, Stripped, CStr;
    AcceptedIff(h, s, v);
    EncodeDecode(s, v + h(v)[..4]);
  }
}
