/**
 * Base58 (src/base58.cpp): numbers between bytes and letters, with leading zeros kept as
 * leading ones.
 */
module Base58 {
  import opened Powers
  import opened Limbs
  import opened Digits

  datatype Option<T> = None | Some(value: T)

  // ---------- letters ----------

  // pszBase58[i]: the digits and letters in ASCII order, without '0', 'I', 'O' and 'l'.
  function Letter(i: nat): char
    requires i < 58
  {
    if i < 9 then ('1' as int + i) as char
    else if i < 17 then ('A' as int + (i - 9)) as char
    else if i < 22 then ('J' as int + (i - 17)) as char
    else if i < 33 then ('P' as int + (i - 22)) as char
    else if i < 44 then ('a' as int + (i - 33)) as char
    else ('m' as int + (i - 44)) as char
  }

  lemma LetterOrder(i: nat, j: nat)
    requires i < j < 58
    ensures Letter(i) < Letter(j)
  {
  }

  // strchr(pszBase58, c) - pszBase58, or -1
  function IndexFrom(c: char, k: nat): (r: int)
    requires k <= 58
    ensures -1 <= r < 58 && (r >= 0 ==> Letter(r) == c)
    ensures r == -1 ==> forall i :: k <= i < 58 ==> Letter(i) != c
    decreases 58 - k
  {
    if k == 58 then -1 else if Letter(k) == c then k else IndexFrom(c, k + 1)
  }

  function Index(c: char): (r: int)
    ensures -1 <= r < 58 && (r >= 0 ==> Letter(r) == c)
    ensures r == -1 ==> forall i :: 0 <= i < 58 ==> Letter(i) != c
  {
    IndexFrom(c, 0)
  }

  lemma IndexOfLetter(i: nat)
    requires i < 58
    ensures Index(Letter(i)) == i
  {
    hide Letter, IndexFrom, Index;
    var r := Index(Letter(i));
    IndexIs(Letter(i), i);
    if r < i { LetterOrder(r, i); }
    if i < r { LetterOrder(i, r); }
  }

  lemma IndexIs(c: char, i: nat)
    requires i < 58 && Letter(i) == c
    ensures 0 <= Index(c) < 58 && Letter(Index(c)) == c
  {
    hide Letter, IndexFrom;
    var r := Index(c);
  }

  predicate IsAlphanumeric(c: char) { '0' <= c <= '9' || 'A' <= c <= 'Z' || 'a' <= c <= 'z' }

  // The letters are the ASCII digits and letters but these four, in ascending order.
  lemma AlphabetIs(c: char)
    ensures (exists i :: 0 <= i < 58 && Letter(i) == c) <==> IsAlphanumeric(c) && c !in "0IOl"
  {
    if IsAlphanumeric(c) && c !in "0IOl" {
      var n := c as int;
      var i := if c <= '9' then n - '1' as int
               else if c <= 'H' then n - 'A' as int + 9
               else if c <= 'N' then n - 'J' as int + 17
               else if c <= 'Z' then n - 'P' as int + 22
               else if c <= 'k' then n - 'a' as int + 33
               else n - 'm' as int + 44;
      assert Letter(i) == c;
    }
  }

  // isspace in the C locale
  predicate IsSpace(c: char) {
    c == ' ' || c == '\t' || c == '\n' || c == '\U{0B}' || c == '\U{0C}' || c == '\r'
  }

  // ---------- the digit buffer ----------

  // "buffer = buffer * mul + digit", from the least significant digit up.  The loop stops at
  // the first untouched digit; the source asserts that no carry is left.
  method MulAdd(buf: array<nat>, length: nat, mul: nat, base: nat, digit: nat) returns (i: nat)
    requires base > 1 && AreDigits(buf[..], base) && length <= buf.Length
    requires forall k :: 0 <= k < buf.Length - length ==> buf[k] == 0
    requires mul * Big(buf[..], base) + digit < Pow(base, buf.Length)
    modifies buf
    ensures AreDigits(buf[..], base) && Big(buf[..], base) == mul * old(Big(buf[..], base)) + digit
    ensures i <= buf.Length && forall k :: 0 <= k < buf.Length - i ==> buf[k] == 0
  {
    hide Big, Pow, Balanced;
    ghost var w := buf[..];
    var n := buf.Length;
    var carry: nat := digit;
    i := 0;
    Start(w[n..], buf[n..], base, mul, digit);
    while (carry != 0 || i < length) && i < n
      invariant i <= n && |w| == n && AreDigits(buf[..], base)
      invariant forall k :: 0 <= k < n - i ==> buf[k] == w[k]
      invariant Balanced(buf[n - i..], w[n - i..], carry, mul, base, digit)
      decreases n - i
    {
      ghost var low := buf[n - i..];
      var k := n - 1 - i;
      Step(low, w[n - i..], buf[k], carry, mul, base, digit);
      carry := Total(carry, mul, buf[k]);
      ghost var rest := w[n - i..];
      assert w[k..] == [w[k]] + rest;
      var x: nat := carry % base;
      buf[k] := x;
      carry := carry / base;
      assert buf[k..] == [x] + low;
      i := i + 1;
    }
    Stop(w, buf[..], n - i, carry, mul, base, digit);
    assert carry == 0;
  }

  function Total(carry: nat, mul: nat, x: nat): nat { carry + mul * x }

  // The processed digits and the carry hold mul times the old digits, plus the new one.
  ghost predicate Balanced(low: seq<nat>, before: seq<nat>, carry: nat, mul: nat, base: nat, digit: nat) {
    |low| == |before| && Big(low, base) + carry * Pow(base, |low|) == mul * Big(before, base) + digit
  }

  lemma Start(s: seq<nat>, t: seq<nat>, base: nat, mul: nat, digit: nat)
    requires s == [] && t == []
    ensures Balanced(t, s, digit, mul, base, digit)
  {
  }

  lemma Step(low: seq<nat>, before: seq<nat>, x: nat, carry: nat, mul: nat, base: nat, digit: nat)
    requires base > 1 && Balanced(low, before, carry, mul, base, digit)
    ensures var c := Total(carry, mul, x);
            c % base < base && Balanced([c % base] + low, [x] + before, c / base, mul, base, digit)
  {
    hide Big, Pow;
    var c, p := carry + mul * x, Pow(base, |low|);
    BigConcat([c % base], low, base);
    BigConcat([x], before, base);
    BigOne(c % base, base);
    BigOne(x, base);
    PowStep(base, |low|);
    Column(c, p, base);
    Product(carry, mul, x, p, Big(before, base));
  }

  lemma BigOne(x: nat, b: nat)
    ensures Big([x], b) == x
  {
  }

  lemma Column(c: nat, p: nat, b: nat)
    requires b > 1
    ensures (c % b) * p + (c / b) * (b * p) == c * p
  {
    assert c == (c / b) * b + c % b;
    MulAssoc(c / b, b, p);
    MulDistrib(p, (c / b) * b, c % b);
  }

  lemma Product(carry: nat, mul: nat, x: nat, p: nat, rest: nat)
    ensures (carry + mul * x) * p == carry * p + mul * (x * p)
    ensures mul * (x * p + rest) == mul * (x * p) + mul * rest
  {
    MulDistrib(p, carry, mul * x);
    MulAssoc(mul, x, p);
    MulDistrib(mul, x * p, rest);
  }

  // Where the loop ends, all that is above is zero, or the buffer was big enough.
  lemma Stop(w: seq<nat>, buf: seq<nat>, k: nat, carry: nat, mul: nat, base: nat, digit: nat)
    requires base > 1 && |w| == |buf| && k <= |w| && buf[..k] == w[..k]
    requires Balanced(buf[k..], w[k..], carry, mul, base, digit)
    requires k == 0 || (carry == 0 && forall j :: 0 <= j < k ==> w[j] == 0)
    requires mul * Big(w, base) + digit < Pow(base, |w|)
    ensures carry == 0 && Big(buf, base) == mul * Big(w, base) + digit
    ensures forall j :: 0 <= j < k ==> buf[j] == 0
  {
    hide Big, Pow;
    assert forall j :: 0 <= j < k ==> buf[j] == buf[..k][j] == w[..k][j] == w[j];
    assert w == w[..k] + w[k..] && buf == buf[..k] + buf[k..];
    if k > 0 {
      assert w[..k] == Zeros(k) && buf[..k] == Zeros(k);
      BigPad(k, w[k..], base);
      BigPad(k, buf[k..], base);
    } else {
      assert w[k..] == w && buf[k..] == buf;
      if carry > 0 { MulMonotone(1, carry, Pow(base, |w|)); }
    }
  }

  // ---------- encoding ----------

  function Letters(ds: seq<nat>): (t: string)
    requires AreDigits(ds, 58)
    ensures |t| == |ds| && forall i :: 0 <= i < |ds| ==> t[i] == Letter(ds[i])
  {
    seq(|ds|, i requires 0 <= i < |ds| => Letter(ds[i]))
  }

  function Ones(n: nat): (t: string)
    ensures |t| == n && forall i :: 0 <= i < n ==> t[i] == '1'
  {
    seq(n, _ => '1')
  }

  function Encoded(v: seq<nat>): string
    requires AreDigits(v, 256)
  {
    Ones(Leading(v)) + Letters(ToDigits(Big(v, 256), 58))
  }

  lemma StripAt(s: seq<nat>, k: nat)
    requires k <= |s| && (forall j :: 0 <= j < k ==> s[j] == 0) && (k == |s| || s[k] != 0)
    ensures Strip(s) == s[k..] && Leading(s) == k
  {
    assert s == Zeros(k) + s[k..];
    LeadingOf(k, s[k..]);
  }

  // 256^8 <= 58^11, so 138/100 digits per byte are enough.
  lemma EncodeFits(n: nat)
    ensures Pow(256, n) <= Pow(58, n * 138 / 100 + 1)
  {
    hide Pow;
    EightBytes();
    DigitsSuffice(256, 58, 11, 8, n, n * 138 / 100 + 1);
  }

  lemma EightBytes()
    ensures Pow(256, 8) <= Pow(58, 11)
  {
  }

  // The first bytes of a number stay below the buffer's capacity.
  lemma PrefixFits(v: seq<nat>, k: nat, from: nat, base: nat, size: nat)
    requires from > 1 && AreDigits(v, from) && k < |v| && Pow(from, |v|) <= Pow(base, size)
    ensures from * Big(v[..k], from) + v[k] == Big(v[..k + 1], from) < Pow(base, size)
  {
    assert v[..k + 1] == v[..k] + [v[k]];
    BigAppend(v[..k], v[k], from);
    BigBound(v[..k + 1], from);
    PowExpMono(from, k + 1, |v|);
  }

  // Skips leading zeroes in the result.
  method SkipZeros(buf: array<nat>, from: nat) returns (it: nat)
    requires from <= buf.Length && forall j :: 0 <= j < from ==> buf[j] == 0
    ensures from <= it <= buf.Length && Strip(buf[..]) == buf[it..]
  {
    hide Strip;
    it := from;
    while it < buf.Length && buf[it] == 0
      invariant from <= it <= buf.Length && forall j :: 0 <= j < it ==> buf[j] == 0
    {
      it := it + 1;
    }
    StripAt(buf[..], it);
  }

  // EncodeBase58
  method EncodeBase58(v: seq<nat>) returns (str: string)
    requires AreDigits(v, 256)
    ensures str == Encoded(v)
  {
    hide Big, Pow, ToDigits, Strip, Leading, Letters;
    var zeroes := 0;
    while zeroes < |v| && v[zeroes] == 0
      invariant zeroes <= |v| && forall j :: 0 <= j < zeroes ==> v[j] == 0
    {
      zeroes := zeroes + 1;
    }
    StripAt(v, zeroes);
    var rest := v[zeroes..];
    var size := |rest| * 138 / 100 + 1;
    EncodeFits(|rest|);
    var b58 := new nat[size](_ => 0);
    var length := Fill(rest, 256, 58, b58);
    var it := SkipZeros(b58, size - length);
    Canonical(b58[..], v, 58, 256);
    var letters := Translate(b58, it);
    str := Ones(zeroes) + letters;
  }

  // Translates the result into a string.
  method Translate(buf: array<nat>, from: nat) returns (str: string)
    requires from <= buf.Length && AreDigits(buf[..], 58)
    ensures AreDigits(buf[from..], 58) && str == Letters(buf[from..])
  {
    hide Letter;
    str := "";
    var it := from;
    while it < buf.Length
      invariant from <= it <= buf.Length && |str| == it - from
      invariant forall i :: from <= i < it ==> str[i - from] == Letter(buf[i])
    {
      str := str + [Letter(buf[it])];
      it := it + 1;
    }
  }

  // The outer loop of both directions: the digits of one base become the digits of another.
  method Fill(rest: seq<nat>, from: nat, base: nat, buf: array<nat>) returns (length: nat)
    requires from > 1 && base > 1 && AreDigits(rest, from) && Pow(from, |rest|) <= Pow(base, buf.Length)
    requires forall j :: 0 <= j < buf.Length ==> buf[j] == 0
    modifies buf
    ensures length <= buf.Length && AreDigits(buf[..], base) && Big(buf[..], base) == Big(rest, from)
    ensures forall j :: 0 <= j < buf.Length - length ==> buf[j] == 0
  {
    hide Big, Pow;
    length := 0;
    assert buf[..] == Zeros(buf.Length);
    BigZeros(buf.Length, base);
    BigNone(from);
    for k := 0 to |rest|
      invariant length <= buf.Length && AreDigits(buf[..], base) && Big(buf[..], base) == Big(rest[..k], from)
      invariant forall j :: 0 <= j < buf.Length - length ==> buf[j] == 0
    {
      PrefixFits(rest, k, from, base, buf.Length);
      length := MulAdd(buf, length, from, base, rest[k]);
    }
    assert rest[..|rest|] == rest;
  }

  // A buffer without its leading zeros holds the digits of its value.
  lemma Canonical(buf: seq<nat>, v: seq<nat>, base: nat, from: nat)
    requires base > 1 && AreDigits(buf, base) && Big(buf, base) == Big(Strip(v), from)
    ensures AreDigits(Strip(buf), base) && ToDigits(Big(v, from), base) == Strip(buf)
  {
    BigStrip(v, from);
    BigStrip(buf, base);
    StripSplit(buf);
    StripDigits(buf, base);
    DigitsOfBig(Strip(buf), base);
  }

  lemma StripDigits(s: seq<nat>, b: nat)
    requires AreDigits(s, b)
    ensures AreDigits(Strip(s), b)
  {
    StripSplit(s);
    forall i | 0 <= i < |Strip(s)|
      ensures Strip(s)[i] < b
    {
      assert s[Leading(s) + i] == Strip(s)[i];
    }
  }

  // ---------- decoding ----------

  function SkipSpaces(s: string): string {
    if s != [] && IsSpace(s[0]) then SkipSpaces(s[1..]) else s
  }

  function LeadingOnes(s: string): (n: nat)
    ensures n <= |s|
  {
    if s != [] && s[0] == '1' then 1 + LeadingOnes(s[1..]) else 0
  }

  // The length of the part before the first space.
  function TokenLength(s: string): (n: nat)
    ensures n <= |s|
  {
    if s != [] && !IsSpace(s[0]) then 1 + TokenLength(s[1..]) else 0
  }

  predicate AllSpaces(s: string) { forall i :: 0 <= i < |s| ==> IsSpace(s[i]) }
  predicate InAlphabet(s: string) { forall i :: 0 <= i < |s| ==> Index(s[i]) >= 0 }

  function Values(s: string): (ds: seq<nat>)
    requires InAlphabet(s)
    ensures |ds| == |s| && AreDigits(ds, 58) && forall i :: 0 <= i < |s| ==> ds[i] == Index(s[i])
  {
    seq(|s|, i requires 0 <= i < |s| => Index(s[i]) as nat)
  }

  function Decoded(s: string): Option<seq<nat>> {
    var core := SkipSpaces(s);
    var zeroes := LeadingOnes(core);
    var t := core[zeroes..];
    var k := TokenLength(t);
    if InAlphabet(t[..k]) && AllSpaces(t[k..])
    then Some(Zeros(zeroes) + ToDigits(Big(Values(t[..k]), 58), 256))
    else None
  }

  // 58^71 <= 256^52, so 733/1000 bytes per letter are enough.
  lemma DecodeFits(n: nat)
    ensures Pow(58, n) <= Pow(256, n * 733 / 1000 + 1)
  {
    hide Pow;
    SeventyOneLetters();
    DigitsSuffice(58, 256, 52, 71, n, n * 733 / 1000 + 1);
  }

  lemma SeventyOneLetters()
    ensures Pow(58, 71) <= Pow(256, 52)
  {
    hide Pow;
    SmallPowers();
    PowAdd(58, 8, 8);
    PowAdd(58, 16, 16);
    PowAdd(58, 32, 32);
    PowAdd(58, 64, 7);
    PowAdd(256, 4, 4);
    PowAdd(256, 8, 8);
    PowAdd(256, 16, 16);
    PowAdd(256, 32, 16);
    PowAdd(256, 48, 4);
  }

  lemma SmallPowers()
    ensures Pow(58, 7) == 2207984167552 && Pow(58, 8) == 128063081718016 && Pow(256, 4) == 4294967296
  {
  }

  // DecodeBase58, on the characters before the terminator of the C string.
  method DecodeBase58(s: string) returns (r: Option<seq<nat>>)
    requires '\0' !in s
    ensures r == Decoded(s)
  {
    hide Big, Pow, ToDigits, Strip, Index, IsSpace, SkipSpaces, LeadingOnes, TokenLength, AllSpaces;
    var psz := s;
    while psz != [] && IsSpace(psz[0])
      invariant SkipSpaces(psz) == SkipSpaces(s)
      decreases |psz|
    {
      SkipStep(psz);
      psz := psz[1..];
    }
    SkipStep(psz);
    ghost var core := psz;
    var zeroes := 0;
    while psz != [] && psz[0] == '1'
      invariant zeroes <= |core| && psz == core[zeroes..] && LeadingOnes(core) == zeroes + LeadingOnes(psz)
      decreases |psz|
    {
      OnesStep(psz);
      psz := psz[1..];
      zeroes := zeroes + 1;
    }
    OnesStep(psz);
    ghost var t := psz;
    var size := |psz| * 733 / 1000 + 1;
    var b256 := new nat[size](_ => 0);
    var ok, length, rest := Letters256(psz, b256);
    if !ok {
      return None;
    }
    psz := rest;
    ghost var buf := b256[..];
    while psz != [] && IsSpace(psz[0])
      invariant AllSpaces(psz) <==> AllSpaces(rest)
      modifies {}
      decreases |psz|
    {
      AllSpacesStep(psz);
      psz := psz[1..];
    }
    AllSpacesStep(psz);
    if psz != [] {
      return None;
    }
    var it := SkipZeros(b256, size - length);
    assert b256[..] == buf;
    OwnDigits(buf, 256);
    r := Some(Zeros(zeroes) + b256[it..]);
  }

  lemma OwnDigits(buf: seq<nat>, base: nat)
    requires base > 1 && AreDigits(buf, base)
    ensures ToDigits(Big(buf, base), base) == Strip(buf)
  {
    BigStrip(buf, base);
    StripSplit(buf);
    StripDigits(buf, base);
    DigitsOfBig(Strip(buf), base);
  }

  lemma SkipStep(s: string)
    ensures SkipSpaces(s) == if s != [] && IsSpace(s[0]) then SkipSpaces(s[1..]) else s
  {
  }

  lemma OnesStep(s: string)
    ensures LeadingOnes(s) == if s != [] && s[0] == '1' then 1 + LeadingOnes(s[1..]) else 0
  {
  }

  lemma AllSpacesStep(s: string)
    ensures AllSpaces(s) <==> s == [] || (IsSpace(s[0]) && AllSpaces(s[1..]))
  {
    if s != [] && IsSpace(s[0]) && AllSpaces(s[1..]) {
      assert forall i :: 0 < i < |s| ==> s[i] == s[1..][i - 1];
    }
  }

  lemma TokenStep(s: string)
    ensures TokenLength(s) == if s != [] && !IsSpace(s[0]) then 1 + TokenLength(s[1..]) else 0
  {
  }

  // The character loop: up to the first space, or to a character that is no letter.
  method Letters256(t: string, b256: array<nat>) returns (ok: bool, length: nat, rest: string)
    requires b256.Length == |t| * 733 / 1000 + 1 && forall j :: 0 <= j < b256.Length ==> b256[j] == 0
    modifies b256
    ensures ok == InAlphabet(t[..TokenLength(t)])
    ensures ok ==> rest == t[TokenLength(t)..] && AreDigits(b256[..], 256) && length <= b256.Length
    ensures ok ==> Big(b256[..], 256) == Big(Values(t[..TokenLength(t)]), 58)
    ensures ok ==> forall j :: 0 <= j < b256.Length - length ==> b256[j] == 0
  {
    hide Big, Pow, Index, IsSpace, TokenLength;
    var psz := t;
    ghost var done := "";
    length := 0;
    assert b256[..] == Zeros(b256.Length);
    BigZeros(b256.Length, 256);
    BigNone(58);
    DecodeFits(|t|);
    while psz != [] && !IsSpace(psz[0])
      invariant t == done + psz && InAlphabet(done) && TokenLength(t) == |done| + TokenLength(psz)
      invariant length <= b256.Length && AreDigits(b256[..], 256) && Big(b256[..], 256) == Big(Values(done), 58)
      invariant forall j :: 0 <= j < b256.Length - length ==> b256[j] == 0
      decreases |psz|
    {
      TokenStep(psz);
      var c := Index(psz[0]);
      if c == -1 {
        assert t[..TokenLength(t)][|done|] == psz[0];
        return false, 0, "";
      }
      OneMore(done, psz[0], c, |t|, b256.Length);
      length := MulAdd(b256, length, 58, 256, c);
      done := done + [psz[0]];
      psz := psz[1..];
    }
    TokenStep(psz);
    assert t[..TokenLength(t)] == done;
    return true, length, psz;
  }

  lemma OneMore(done: string, x: char, c: nat, n: nat, size: nat)
    requires InAlphabet(done) && Index(x) == c && |done| < n && Pow(58, n) <= Pow(256, size)
    ensures InAlphabet(done + [x]) && 58 * Big(Values(done), 58) + c == Big(Values(done + [x]), 58) < Pow(256, size)
  {
    hide Big, Pow, Index;
    var ds := Values(done + [x]);
    assert ds == Values(done) + [c];
    BigAppend(Values(done), c, 58);
    BigBound(ds, 58);
    PowExpMono(58, |ds|, n);
  }

  // ---------- round trips ----------

  lemma LetterIsNoSpace(i: nat)
    requires i < 58
    ensures !IsSpace(Letter(i))
  {
  }

  lemma OneIsLetterZero(i: nat)
    requires i < 58
    ensures Letter(i) == '1' <==> i == 0
  {
  }

  lemma {:induction false} LeadingOnesOf(n: nat, t: string)
    requires t == [] || t[0] != '1'
    ensures LeadingOnes(Ones(n) + t) == n && (Ones(n) + t)[n..] == t
  {
    OnesStep(Ones(n) + t);
    if n > 0 {
      assert (Ones(n) + t)[1..] == Ones(n - 1) + t;
      LeadingOnesOf(n - 1, t);
    } else {
      assert Ones(n) + t == t;
    }
  }

  lemma {:induction false} TokenLengthOf(t: string, u: string)
    requires (forall i :: 0 <= i < |t| ==> !IsSpace(t[i])) && (u == [] || IsSpace(u[0]))
    ensures TokenLength(t + u) == |t|
  {
    TokenStep(t + u);
    if t != [] {
      assert (t + u)[1..] == t[1..] + u;
      TokenLengthOf(t[1..], u);
    } else {
      assert t + u == u;
    }
  }

  lemma ValuesOfLetters(ds: seq<nat>)
    requires AreDigits(ds, 58)
    ensures InAlphabet(Letters(ds)) && Values(Letters(ds)) == ds
  {
    hide Letter, Index;
    forall i | 0 <= i < |ds|
      ensures Index(Letters(ds)[i]) == ds[i]
    {
      IndexOfLetter(ds[i]);
    }
  }

  // Every byte vector comes back.
  lemma DecodeOfEncode(v: seq<nat>)
    requires AreDigits(v, 256)
    ensures Decoded(Encoded(v)) == Some(v)
  {
    hide Big, Pow, ToDigits, Strip, Index, IsSpace, SkipSpaces, LeadingOnes, TokenLength, Letter, Leading;
    var ds := ToDigits(Big(v, 256), 58);
    var n, t, e := Leading(v), Letters(ds), Encoded(v);
    BigOfDigits(Big(v, 256), 58);
    forall i | 0 <= i < |ds|
      ensures !IsSpace(t[i])
    {
      LetterIsNoSpace(ds[i]);
    }
    if ds != [] { OneIsLetterZero(ds[0]); }
    LeadingOnesOf(n, t);
    OneIsNoSpace();
    SkipStep(e);
    TokenLengthOf(t, []);
    assert t + [] == t && t[..|t|] == t && t[|t|..] == [];
    ValuesOfLetters(ds);
    OwnDigits(v, 256);
    StripSplit(v);
  }

  lemma OneIsNoSpace()
    ensures !IsSpace('1')
  {
  }

  // The string without its outer spaces.
  function DropTrailing(s: string): string {
    if s != [] && IsSpace(s[|s| - 1]) then DropTrailing(s[..|s| - 1]) else s
  }

  function Trim(s: string): string { DropTrailing(SkipSpaces(s)) }

  lemma {:induction false} DropTrailingOf(t: string, u: string)
    requires AllSpaces(u) && (t == [] || !IsSpace(t[|t| - 1]))
    ensures DropTrailing(t + u) == t
  {
    if u != [] {
      assert (t + u)[..|t + u| - 1] == t + u[..|u| - 1];
      DropTrailingOf(t, u[..|u| - 1]);
    } else {
      assert t + u == t;
    }
  }

  lemma {:induction false} TokenHasNoSpace(s: string)
    ensures forall i :: 0 <= i < TokenLength(s) ==> !IsSpace(s[i])
  {
    if s != [] && !IsSpace(s[0]) { TokenHasNoSpace(s[1..]); }
  }

  lemma {:induction false} OnesSplit(s: string)
    ensures s == Ones(LeadingOnes(s)) + s[LeadingOnes(s)..]
    ensures LeadingOnes(s) < |s| ==> s[LeadingOnes(s)] != '1'
  {
    if s != [] && s[0] == '1' {
      OnesSplit(s[1..]);
      assert Ones(LeadingOnes(s)) == ['1'] + Ones(LeadingOnes(s[1..]));
    } else {
      assert Ones(0) == [];
    }
  }

  lemma LettersOfValues(t: string)
    requires InAlphabet(t)
    ensures Letters(Values(t)) == t
  {
    hide Letter;
  }

  lemma DecodedBytes(s: string)
    requires Decoded(s).Some?
    ensures AreDigits(Decoded(s).value, 256)
  {
    hide Big, SkipSpaces, LeadingOnes, TokenLength, Index;
  }

  // Encoding what was decoded gives the string back, stripped of outer spaces.
  lemma EncodeOfDecode(s: string)
    requires Decoded(s).Some?
    ensures AreDigits(Decoded(s).value, 256) && Encoded(Decoded(s).value) == Trim(s)
  {
    hide Big, Pow, ToDigits, Strip, Index, IsSpace, SkipSpaces, LeadingOnes, TokenLength, Letter, Leading, DropTrailing;
    DecodedBytes(s);
    var core := SkipSpaces(s);
    var n := LeadingOnes(core);
    OnesSplit(core);
    var t := core[n..];
    var k := TokenLength(t);
    TokenHasNoSpace(t);
    var w := t[..k];
    var ds := Values(w);
    var v := Decoded(s).value;
    FirstNotOne(t, k, ds);
    DigitsOfBig(ds, 58);
    BigOfDigits(Big(ds, 58), 256);
    LeadingOf(n, ToDigits(Big(ds, 58), 256));
    BigPad(n, ToDigits(Big(ds, 58), 256), 256);
    LettersOfValues(w);
    assert Encoded(v) == Ones(n) + w;
    assert core == (Ones(n) + w) + t[k..];
    LastNoSpace(n, w);
    DropTrailingOf(Ones(n) + w, t[k..]);
  }

  lemma FirstNotOne(t: string, k: nat, ds: seq<nat>)
    requires k <= |t| && InAlphabet(t[..k]) && ds == Values(t[..k]) && (t == [] || t[0] != '1')
    ensures ds == [] || ds[0] != 0
  {
    hide Index, Letter;
    if ds != [] {
      assert t[..k][0] == t[0];
      IndexLetter(t[0]);
      OneIsLetterZero(ds[0]);
    }
  }

  lemma IndexLetter(c: char)
    requires Index(c) >= 0
    ensures Letter(Index(c)) == c
  {
  }

  lemma LastNoSpace(n: nat, w: string)
    requires forall i :: 0 <= i < |w| ==> !IsSpace(w[i])
    ensures var u := Ones(n) + w; u == [] || !IsSpace(u[|u| - 1])
  {
    hide IsSpace;
    OneIsNoSpace();
  }
}
