/** Integer output of the printf family (format_integer and vsnprintf in lib/stdio.c). */
module Printf {
  import opened Definitions

  type Octet = x: int | 0 <= x < 256

  const ZERO: Octet := 48    // '0'
  const SPACE: Octet := 32   // ' '
  const COMMA: Octet := 44   // ','
  const PLUS: Octet := 43    // '+'
  const MINUS: Octet := 45   // '-'

  /** struct integer_base; x is 0 where the base has no prefix. */
  datatype Base = Base(base: nat, digits: seq<Octet>, x: Octet, group: nat)

  ghost predicate BaseOk(b: Base) {
    8 <= b.base == |b.digits| && 3 <= b.group && b.digits[0] == ZERO
  }

  /** struct printf_conversion, with one field for each flag; a negative precision is none. */
  datatype Conversion = Conversion(minus: bool, plus: bool, space: bool, pound: bool, zero: bool, group: bool,
                                   width: int, precision: int)

  function Pow(b: nat, k: nat): nat {
    if k == 0 then 1 else b * Pow(b, k - 1)
  }

  function Dup(ch: Octet, n: nat): (r: seq<Octet>)
    ensures |r| == n
  {
    seq(n, _ => ch)
  }

  function Reversed(s: seq<Octet>): (r: seq<Octet>)
    ensures |r| == |s|
  {
    seq(|s|, i requires 0 <= i < |s| => s[|s| - 1 - i])
  }

  /** The digits of value from the lowest up, `cnt` being out already, with the separators that fall between them. */
  function LowFirst(value: nat, b: Base, grouped: bool, cnt: nat): seq<Octet>
    requires BaseOk(b)
    decreases value
  {
    if value == 0 then [] else
      Separator(b, grouped, cnt) + [b.digits[value % b.base]] + LowFirst(value / b.base, b, grouped, cnt + 1)
  }

  function Separator(b: Base, grouped: bool, cnt: nat): seq<Octet>
    requires BaseOk(b)
  {
    if grouped && cnt > 0 && cnt % b.group == 0 then [COMMA] else []
  }

  /** All that the buffer comes to hold: the digits, zeros up to the precision, and the octal mark. */
  function Buffered(value: nat, b: Base, c: Conversion): seq<Octet>
    requires BaseOk(b)
  {
    var digits := LowFirst(value, b, c.group, 0);
    var precision := if c.precision < 0 then 1 else c.precision;
    var filled := digits + Dup(ZERO, Max(0, Min(precision, 63) - |digits|));
    if c.pound && b.base == 8 && (filled == [] || filled[|filled| - 1] != ZERO) then filled + [ZERO] else filled
  }

  function Sign(isSigned: bool, negative: bool, c: Conversion): seq<Octet> {
    if !isSigned then []
    else if c.plus then [if negative then MINUS else PLUS]
    else if c.space then [if negative then MINUS else SPACE]
    else if negative then [MINUS]
    else []
  }

  function Prefix(value: nat, b: Base, c: Conversion): seq<Octet> {
    if c.pound && value > 0 && b.x != 0 then [ZERO, b.x] else []
  }

  /** The text that format_integer puts out. */
  function Formatted(value: nat, isSigned: bool, negative: bool, b: Base, c: Conversion): seq<Octet>
    requires BaseOk(b)
  {
    var body, sign, x := Buffered(value, b, c), Sign(isSigned, negative, c), Prefix(value, b, c);
    var pad := Max(0, c.width - |body| - |x| - |sign|);
    Dup(SPACE, if c.minus || c.zero then 0 else pad) + sign + x + Dup(ZERO, if c.zero then pad else 0)
    + Reversed(body) + Dup(SPACE, if c.minus then pad else 0)
  }

  // ---- the buffer is large enough ----

  /** A 64-bit value has at most 22 digits in base 8 or more. */
  lemma DigitsShrink(value: nat, base: nat, k: nat)
    requires base >= 8 && 0 < k && value < Pow(8, k)
    ensures value / base < Pow(8, k - 1)
  {
    assert value < 8 * Pow(8, k - 1);
    assert value / base <= value / 8 by {
      QuotientShrinks(value, base);
    }
  }

  lemma QuotientShrinks(value: nat, base: nat)
    requires base >= 8
    ensures value / base <= value / 8 && (value > 0 ==> value / base < value)
  {
    var q := value / base;
    assert q * 8 <= q * base <= value;
  }

  lemma {:induction false} LowFirstLength(value: nat, b: Base, grouped: bool, cnt: nat, k: nat)
    requires BaseOk(b) && value < Pow(8, k)
    ensures |LowFirst(value, b, grouped, cnt)| <= 2 * k
    ensures value > 0 ==> k > 0
    decreases k
  {
    if value > 0 {
      assert Pow(8, 0) == 1;
      DigitsShrink(value, b.base, k);
      LowFirstLength(value / b.base, b, grouped, cnt + 1, k - 1);
    }
  }

  const UINTMAX: nat := 0x1_0000_0000_0000_0000   // one past the largest uintmax_t

  lemma UintmaxDigits()
    ensures UINTMAX <= Pow(8, 22)
  {
    PowAdd(8, 11, 11);
    PowAdd(8, 5, 6);
    assert Pow(8, 5) == 32768 && Pow(8, 6) == 262144;
  }

  lemma {:induction false} PowAdd(b: nat, i: nat, j: nat)
    ensures Pow(b, i + j) == Pow(b, i) * Pow(b, j)
  {
    if i > 0 {
      PowAdd(b, i - 1, j);
      Associative(b, Pow(b, i - 1), Pow(b, j));
    }
  }

  lemma Associative(x: int, y: int, z: int)
    ensures x * (y * z) == (x * y) * z
  {
  }

  /** The digit loop of format_integer; the 64-byte buffer is never outrun. */
  method PutDigits(buf: array<Octet>, value: nat, b: Base, grouped: bool) returns (cp: nat)
    requires BaseOk(b) && value < UINTMAX && buf.Length == 64
    modifies buf
    ensures cp <= 44 && buf[..cp] == LowFirst(value, b, grouped, 0)
  {
    var v: nat, cnt: nat := value, 0;
    cp := 0;
    ghost var whole := LowFirst(value, b, grouped, 0);
    UintmaxDigits();
    LowFirstLength(value, b, grouped, 0, 22);
    while v > 0
      invariant cp <= 44 && buf[..cp] + LowFirst(v, b, grouped, cnt) == whole
    {
      ghost var done, rest := buf[..cp], LowFirst(v, b, grouped, cnt);
      var digit;
      digit, v := LowestDigit(v, b, grouped, cnt);
      assert |done| + |rest| == |whole|;
      cp := PutDigit(buf, cp, digit, b, grouped, cnt);
      Regroup(done, Separator(b, grouped, cnt), [b.digits[digit]], LowFirst(v, b, grouped, cnt + 1));
      cnt := cnt + 1;
    }
  }

  method LowestDigit(v: nat, b: Base, ghost grouped: bool, ghost cnt: nat) returns (digit: nat, rest: nat)
    requires BaseOk(b) && v > 0
    ensures digit < b.base && rest < v
    ensures LowFirst(v, b, grouped, cnt) == Separator(b, grouped, cnt) + [b.digits[digit]] + LowFirst(rest, b, grouped, cnt + 1)
  {
    QuotientShrinks(v, b.base);
    digit, rest := v % b.base, v / b.base;
  }

  lemma Regroup(s: seq<Octet>, t: seq<Octet>, u: seq<Octet>, v: seq<Octet>)
    ensures s + (t + u + v) == (s + t + u) + v
  {
  }

  method PutDigit(buf: array<Octet>, start: nat, digit: nat, b: Base, grouped: bool, cnt: nat) returns (cp: nat)
    requires BaseOk(b) && digit < b.base && start + 2 <= buf.Length
    modifies buf
    ensures cp == start + |Separator(b, grouped, cnt)| + 1
    ensures buf[..cp] == old(buf[..start]) + Separator(b, grouped, cnt) + [b.digits[digit]]
  {
    cp := start;
    if grouped && cnt > 0 && cnt % b.group == 0 {
      buf[cp] := COMMA;
      cp := cp + 1;
    }
    buf[cp] := b.digits[digit];
    cp := cp + 1;
  }

  /** Zeros up to the precision, and the leading zero of an alternative octal. */
  method PutZeros(buf: array<Octet>, start: nat, b: Base, c: Conversion, ghost value: nat) returns (cp: nat)
    requires BaseOk(b) && buf.Length == 64 && start <= 44 && buf[..start] == LowFirst(value, b, c.group, 0)
    modifies buf
    ensures cp <= 64 && buf[..cp] == Buffered(value, b, c)
  {
    cp := start;
    ghost var digits := buf[..start];
    var precision := if c.precision < 0 then 1 else c.precision;
    while cp < precision && cp < 63
      invariant start <= cp <= 63 && (cp > start ==> cp <= precision)
      invariant buf[..cp] == digits + Dup(ZERO, cp - start)
    {
      buf[cp] := ZERO;
      cp := cp + 1;
    }
    if c.pound && b.base == 8 && (cp == 0 || buf[cp - 1] != ZERO) {
      buf[cp] := ZERO;
      cp := cp + 1;
    }
  }

  /** The output loop over the buffer, from its end to its start. */
  method Emit(buf: array<Octet>, cp: nat, before: seq<Octet>) returns (out: seq<Octet>)
    requires cp <= buf.Length
    ensures out == before + Reversed(buf[..cp])
  {
    out := before;
    var k: nat := cp;
    ghost var text := Reversed(buf[..cp]);
    while k > 0
      invariant k <= cp && out == before + text[..cp - k]
    {
      assert text[..cp - k + 1] == text[..cp - k] + [buf[k - 1]];
      k := k - 1;
      out := out + [buf[k]];
    }
    assert text[..cp] == text;
  }

  method OutputDup(ch: Octet, cnt: nat, before: seq<Octet>) returns (out: seq<Octet>)
    ensures out == before + Dup(ch, cnt)
  {
    out := before;
    for k := 0 to cnt
      invariant out == before + Dup(ch, k)
    {
      out := out + [ch];
    }
  }

  /** format_integer, and what its text says. */
  method FormatInteger(value: nat, isSigned: bool, negative: bool, b: Base, c: Conversion)
    returns (out: seq<Octet>, ghost t: Text)
    requires BaseOk(b) && value < UINTMAX
    ensures out == Formatted(value, isSigned, negative, b, c)
    ensures Proper(b) ==> Says(out, t, value, isSigned, negative, b, c)
  {
    hide Says, Proper;
    t := Text(0, [], [], 0, 0);
    if Proper(b) {
      t := FormattedSays(value, isSigned, negative, b, c);
    }
    var sign, x := Sign(isSigned, negative, c), Prefix(value, b, c);
    var buf := new Octet[64];
    var cp := PutDigits(buf, value, b, c.group);
    cp := PutZeros(buf, cp, b, c, value);
    var pad := c.width - cp - |x| - |sign|;
    if pad < 0 {
      pad := 0;
    }
    out := Output(buf, cp, sign, x, pad, c);
  }

  /** The output part of format_integer. */
  method Output(buf: array<Octet>, cp: nat, sign: seq<Octet>, x: seq<Octet>, pad: nat, c: Conversion) returns (out: seq<Octet>)
    requires cp <= buf.Length
    ensures out == Dup(SPACE, if c.minus || c.zero then 0 else pad) + sign + x + Dup(ZERO, if c.zero then pad else 0)
                   + Reversed(buf[..cp]) + Dup(SPACE, if c.minus then pad else 0)
  {
    out := OutputDup(SPACE, if c.minus || c.zero then 0 else pad, []);
    assert out == Dup(SPACE, if c.minus || c.zero then 0 else pad);
    out := out + sign + x;
    out := OutputDup(ZERO, if c.zero then pad else 0, out);
    out := Emit(buf, cp, out);
    out := OutputDup(SPACE, if c.minus then pad else 0, out);
  }

  // ---- what the text says, read without the printer ----

  /** The digits are different, and none of them is a mark. */
  ghost predicate Proper(b: Base) {
    && BaseOk(b) && (forall i, j :: 0 <= i < j < |b.digits| ==> b.digits[i] != b.digits[j])
    && SPACE !in b.digits && COMMA !in b.digits && PLUS !in b.digits && MINUS !in b.digits
    && b.x !in b.digits && b.x != SPACE && b.x != COMMA && b.x != PLUS && b.x != MINUS
  }

  const DECIMAL: Base := Base(10, [48, 49, 50, 51, 52, 53, 54, 55, 56, 57], 0, 3)
  const OCTAL: Base := Base(8, [48, 49, 50, 51, 52, 53, 54, 55], 0, 3)
  const HEX: Base := Base(16, [48, 49, 50, 51, 52, 53, 54, 55, 56, 57, 97, 98, 99, 100, 101, 102], 120, 4)
  const UPPER_HEX: Base := Base(16, [48, 49, 50, 51, 52, 53, 54, 55, 56, 57, 65, 66, 67, 68, 69, 70], 88, 4)

  /** The four bases of lib/stdio.c are of this kind. */
  lemma BasesProper()
    ensures Proper(DECIMAL) && Proper(OCTAL) && Proper(HEX) && Proper(UPPER_HEX)
  {
    hide Proper;
    Ascending(DECIMAL, 0);
    Ascending(OCTAL, 0);
    Ascending(HEX, 97);
    Ascending(UPPER_HEX, 65);
  }

  lemma Ascending(b: Base, a: int)
    requires BaseOk(b) && b.base <= 16 && forall i :: 0 <= i < b.base ==> b.digits[i] == if i < 10 then 48 + i else a + i - 10
    requires b.base <= 10 || a == 65 || a == 97
    requires b.x == 0 || b.x == 88 || b.x == 120
    ensures Proper(b)
  {
  }

  ghost function DigitValue(b: Base, ch: Octet): (i: nat)
    requires ch in b.digits
    ensures i < |b.digits| && b.digits[i] == ch
  {
    var i: nat :| i < |b.digits| && b.digits[i] == ch;
    i
  }

  /** The number that the digits of a text spell in base b, whatever stands between them. */
  ghost function ReadIn(b: Base, s: seq<Octet>): nat {
    if s == [] then 0 else
    var v, ch := ReadIn(b, s[..|s| - 1]), s[|s| - 1];
    if ch in b.digits then b.base * v + DigitValue(b, ch) else v
  }

  lemma DigitIs(b: Base, i: nat)
    requires Proper(b) && i < |b.digits|
    ensures b.digits[i] in b.digits && DigitValue(b, b.digits[i]) == i
  {
  }

  lemma ReadNext(b: Base, s: seq<Octet>, ch: Octet)
    ensures ReadIn(b, s + [ch]) == if ch in b.digits then b.base * ReadIn(b, s) + DigitValue(b, ch) else ReadIn(b, s)
  {
    assert (s + [ch])[..|s|] == s;
  }

  /** What spells nothing can be put in front. */
  lemma {:induction false} ReadAfter(b: Base, s: seq<Octet>, t: seq<Octet>)
    requires ReadIn(b, s) == 0
    ensures ReadIn(b, s + t) == ReadIn(b, t)
  {
    if t == [] {
      assert s + t == s;
    } else {
      var u, ch := t[..|t| - 1], t[|t| - 1];
      ReadAfter(b, s, u);
      assert t == u + [ch] && s + t == (s + u) + [ch];
      ReadNext(b, s + u, ch);
      ReadNext(b, u, ch);
    }
  }

  /** Zeros and marks spell nothing. */
  ghost predicate Silent(b: Base, s: seq<Octet>) {
    forall ch :: ch in s ==> ch == ZERO || ch !in b.digits
  }

  lemma {:induction false} ReadSilent(b: Base, s: seq<Octet>)
    requires Proper(b) && Silent(b, s)
    ensures ReadIn(b, s) == 0
  {
    if s != [] {
      var u, ch := s[..|s| - 1], s[|s| - 1];
      assert s == u + [ch];
      ReadSilent(b, u);
      ReadNext(b, u, ch);
    }
  }

  lemma ReversedJoin(s: seq<Octet>, t: seq<Octet>)
    ensures Reversed(s + t) == Reversed(t) + Reversed(s)
  {
  }

  lemma ReversedDup(ch: Octet, n: nat)
    ensures Reversed(Dup(ch, n)) == Dup(ch, n)
  {
  }

  /** The digits read back. */
  lemma {:induction false} ReadDigits(value: nat, b: Base, grouped: bool, cnt: nat)
    requires Proper(b)
    ensures ReadIn(b, Reversed(LowFirst(value, b, grouped, cnt))) == value
    decreases value
  {
    hide ReadIn;
    if value == 0 {
      assert Reversed([]) == [];
      ReadSilent(b, []);
    } else {
      NotNothing(value, b.base);
      QuotientShrinks(value, b.base);
      var rest := LowFirst(value / b.base, b, grouped, cnt + 1);
      ReadDigits(value / b.base, b, grouped, cnt + 1);
      ReadStep(b, Separator(b, grouped, cnt), value % b.base, rest);
    }
  }

  lemma ReadStep(b: Base, sep: seq<Octet>, digit: nat, rest: seq<Octet>)
    requires Proper(b) && (sep == [] || sep == [COMMA]) && digit < b.base
    ensures ReadIn(b, Reversed(sep + [b.digits[digit]] + rest)) == b.base * ReadIn(b, Reversed(rest)) + digit
  {
    hide ReadIn, DigitValue;
    var ch, back := b.digits[digit], Reversed(rest);
    DigitIs(b, digit);
    ReadNext(b, back, ch);
    assert Reversed(sep + [ch] + rest) == (back + [ch]) + sep;
    if sep == [] {
      assert (back + [ch]) + sep == back + [ch];
    } else {
      ReadNext(b, back + [ch], COMMA);
    }
  }

  /** How many characters n digits take, separators and all. */
  function Chars(n: nat, grouped: bool, group: nat): nat
    requires group > 0
  {
    n + if grouped && n > 0 then (n - 1) / group else 0
  }

  lemma CharsNext(n: nat, grouped: bool, b: Base)
    requires BaseOk(b)
    ensures Chars(n + 1, grouped, b.group) == Chars(n, grouped, b.group) + |Separator(b, grouped, n)| + 1
    ensures grouped ==> (Chars(n, grouped, b.group) % (b.group + 1) == b.group <==> n > 0 && n % b.group == 0)
  {
    if n > 0 {
      WholeGroups(n, b.group);
    }
  }

  lemma WholeGroups(n: int, g: int)
    requires n > 0 && g > 0
    ensures n / g == (n - 1) / g + if n % g == 0 then 1 else 0
    ensures (n + (n - 1) / g) % (g + 1) == g <==> n % g == 0
  {
    var m, r := n / g, n % g;
    NotNothing(n, g);
    GroupEnds(n, g, m, r);
  }

  lemma GroupEnds(n: int, g: int, m: int, r: int)
    requires n > 0 && g > 0 && n == g * m + r && 0 <= r < g
    ensures (n - 1) / g == if r == 0 then m - 1 else m
    ensures (n + if r == 0 then m - 1 else m) % (g + 1) == if r == 0 then g else r
  {
    assert m * g == g * m && m * (g + 1) == g * m + m && (m - 1) * g == g * m - g && (m - 1) * (g + 1) == g * m + m - g - 1;
    if r == 0 {
      QuotientIs(n - 1, g, m - 1, g - 1);
      QuotientIs(n + m - 1, g + 1, m - 1, g);
    } else {
      QuotientIs(n - 1, g, m, r - 1);
      QuotientIs(n + m, g + 1, m, r);
    }
  }

  lemma QuotientIs(n: int, d: int, q: int, r: int)
    requires d > 0 && n == q * d + r && 0 <= r < d
    ensures n / d == q && n % d == r
  {
    var e := n / d - q;
    assert n % d == n - n / d * d;
    assert e * d == r - n % d;
    Multiples(e, d);
  }

  lemma Multiples(e: int, d: int)
    requires d > 0
    ensures (e > 0 ==> e * d >= d) && (e < 0 ==> e * d <= -d)
  {
  }

  /** value has k digits in the base. */
  ghost predicate HasDigits(value: nat, base: nat, k: nat) {
    value < Pow(base, k) && (k > 0 ==> Pow(base, k - 1) <= value)
  }

  function DigitCount(value: nat, base: nat): nat
    requires base >= 8
  {
    if value == 0 then 0 else 1 + DigitCount(value / base, base)
  }

  lemma {:induction false} DigitCountIs(value: nat, base: nat)
    requires base >= 8
    ensures HasDigits(value, base, DigitCount(value, base))
    decreases value
  {
    if value > 0 {
      var q, k := value / base, DigitCount(value, base);
      QuotientShrinks(value, base);
      DigitCountIs(q, base);
      assert q * base <= value < q * base + base;
      Below(q, Pow(base, k - 1), base);
      if k > 1 {
        AtLeast(Pow(base, k - 2), q, base);
      }
    }
  }

  lemma Below(q: nat, p: nat, base: nat)
    requires q < p
    ensures q * base + base <= base * p
  {
    assert (q + 1) * base <= p * base;
  }

  lemma AtLeast(p: nat, q: nat, base: nat)
    requires p <= q
    ensures base * p <= q * base
  {
  }

  lemma {:induction false} LowFirstChars(value: nat, b: Base, grouped: bool, cnt: nat)
    requires BaseOk(b)
    ensures Chars(cnt, grouped, b.group) + |LowFirst(value, b, grouped, cnt)|
         == Chars(cnt + DigitCount(value, b.base), grouped, b.group)
    decreases value
  {
    if value > 0 {
      QuotientShrinks(value, b.base);
      LowFirstChars(value / b.base, b, grouped, cnt + 1);
      CharsNext(cnt, grouped, b);
    }
  }

  /** Character i from the right of a number of which `done` characters are out already. */
  ghost predicate CharAt(b: Base, grouped: bool, s: seq<Octet>, done: nat, i: nat)
    requires i < |s|
  {
    && (s[i] == COMMA || s[i] in b.digits)
    && (s[i] == COMMA <==> grouped && (done + i) % (b.group + 1) == b.group)
    && (s[i] == COMMA ==> i + 1 < |s|)
  }

  /** Separators stand after every group of digits, counted from the right, if there are more. */
  lemma {:induction false} LowFirstCommas(value: nat, b: Base, grouped: bool, cnt: nat, i: nat)
    requires Proper(b) && i < |LowFirst(value, b, grouped, cnt)|
    ensures CharAt(b, grouped, LowFirst(value, b, grouped, cnt), Chars(cnt, grouped, b.group), i)
    decreases value
  {
    hide CharAt, Chars;
    QuotientShrinks(value, b.base);
    CharsNext(cnt, grouped, b);
    var sep, rest := Separator(b, grouped, cnt), LowFirst(value / b.base, b, grouped, cnt + 1);
    var n := Chars(cnt, grouped, b.group);
    if i > |sep| {
      LowFirstCommas(value / b.base, b, grouped, cnt + 1, i - |sep| - 1);
      CharBehind(b, grouped, sep, value % b.base, rest, n, i);
    } else {
      CharInFront(b, grouped, sep, value % b.base, rest, n, i);
    }
  }

  lemma CharBehind(b: Base, grouped: bool, sep: seq<Octet>, digit: nat, rest: seq<Octet>, done: nat, i: nat)
    requires digit < |b.digits| && |sep| < i < |sep| + 1 + |rest|
    requires CharAt(b, grouped, rest, done + |sep| + 1, i - |sep| - 1)
    ensures CharAt(b, grouped, sep + [b.digits[digit]] + rest, done, i)
  {
    assert (sep + [b.digits[digit]] + rest)[i] == rest[i - |sep| - 1];
  }

  lemma CharInFront(b: Base, grouped: bool, sep: seq<Octet>, digit: nat, rest: seq<Octet>, done: nat, i: nat)
    requires Proper(b) && digit < |b.digits| && i <= |sep|
    requires sep == if grouped && done % (b.group + 1) == b.group then [COMMA] else []
    ensures CharAt(b, grouped, sep + [b.digits[digit]] + rest, done, i)
  {
    var s, g := sep + [b.digits[digit]] + rest, b.group + 1;
    if i == |sep| {
      assert s[i] == b.digits[digit];
      if sep != [] {
        NotNothing(done, g);
        assert g * (done / g) + g == (done / g + 1) * g;
        QuotientIs(done + 1, g, done / g + 1, 0);
      }
    } else {
      assert s[i] == COMMA;
    }
  }

  /** Whatever is left of a place inside spells a number. */
  lemma {:induction false} LowFirstTail(value: nat, b: Base, grouped: bool, cnt: nat, i: nat)
    requires Proper(b) && i < |LowFirst(value, b, grouped, cnt)|
    ensures ReadIn(b, Reversed(LowFirst(value, b, grouped, cnt)[i..])) > 0
    decreases value
  {
    hide ReadIn;
    QuotientShrinks(value, b.base);
    var s, sep, digit := LowFirst(value, b, grouped, cnt), Separator(b, grouped, cnt), b.digits[value % b.base];
    var rest := LowFirst(value / b.base, b, grouped, cnt + 1);
    var k := |sep| + 1;
    if i >= k {
      LowFirstTail(value / b.base, b, grouped, cnt + 1, i - k);
      assert s[i..] == rest[i - k..];
    } else {
      ReadDigits(value / b.base, b, grouped, cnt + 1);
      assert s[i..] == sep[i..] + [digit] + rest;
      ReadStep(b, sep[i..], value % b.base, rest);
      NotNothing(value, b.base);
    }
  }

  lemma NotNothing(value: int, base: int)
    requires base > 0
    ensures value == base * (value / base) + value % base
  {
  }

  /** The highest character is a digit other than zero. */
  lemma {:induction false} TopDigit(value: nat, b: Base, grouped: bool, cnt: nat)
    requires Proper(b) && value > 0
    ensures var s := LowFirst(value, b, grouped, cnt); s != [] && s[|s| - 1] != ZERO
    decreases value
  {
    QuotientShrinks(value, b.base);
    if value / b.base > 0 {
      TopDigit(value / b.base, b, grouped, cnt + 1);
    } else {
      SmallDigit(value, b.base);
    }
  }

  lemma SmallDigit(value: nat, base: nat)
    requires base > 0 && value / base == 0
    ensures value % base == value
  {
  }

  /** A text: padding, a sign, a number, padding; and how many digits the value has. */
  datatype Text = Text(left: nat, sign: seq<Octet>, number: seq<Octet>, right: nat, digits: nat)

  /** '-' just before a negative number, '+' or ' ' just before another if the flags ask for it, and else nothing. */
  ghost predicate SignSays(sign: seq<Octet>, isSigned: bool, negative: bool, c: Conversion) {
    && |sign| <= 1
    && (MINUS in sign <==> isSigned && negative)
    && (PLUS in sign <==> isSigned && !negative && c.plus)
    && (SPACE in sign <==> isSigned && !negative && !c.plus && c.space)
    && (sign == [] <==> !isSigned || (!negative && !c.plus && !c.space))
  }

  /** Place i from the right holds a separator exactly where one is due: after a whole group, if a number is left of it. */
  ghost predicate SeparatorSays(number: seq<Octet>, b: Base, grouped: bool, i: nat)
    requires i < |number|
  {
    number[|number| - 1 - i] == COMMA <==>
      grouped && i % (b.group + 1) == b.group && ReadIn(b, number[..|number| - 1 - i]) > 0
  }

  /** The number is the value, "0x" is in front of it exactly when asked for, and it has separators where they belong. */
  ghost predicate NumberSays(number: seq<Octet>, value: nat, b: Base, c: Conversion) {
    && ReadIn(b, number) == value
    && (forall ch :: ch in number ==> ch in b.digits || ch == COMMA || ch == b.x)
    && (b.x in number <==> c.pound && value > 0 && b.x != 0)
    && (b.x in number ==> |number| >= 2 && number[0] == ZERO && number[1] == b.x && b.x !in number[2..])
    && (c.pound && b.base == 8 ==> number != [] && number[0] == ZERO)
    && (forall i {:trigger SeparatorSays(number, b, c.group, i)} :: 0 <= i < |number| ==> SeparatorSays(number, b, c.group, i))
  }

  /** The least precision counts separators and stops at 63; the width counts everything. */
  ghost predicate LengthSays(t: Text, value: nat, b: Base, c: Conversion)
    requires BaseOk(b)
  {
    var written := Chars(t.digits, c.group, b.group);
    var least := Min(if c.precision < 0 then 1 else c.precision, 63);
    var body := Max(written, least) + if c.pound && b.base == 8 && least <= written then 1 else 0;
    var natural := |t.sign| + (if b.x in t.number then 2 else 0) + body;
    var pad := Max(0, c.width - natural);
    && HasDigits(value, b.base, t.digits)
    && |t.sign| + |t.number| == natural + (if c.zero then pad else 0)
    && t.left == (if c.minus || c.zero then 0 else pad)
    && t.right == (if c.minus then pad else 0)
  }

  ghost predicate Says(out: seq<Octet>, t: Text, value: nat, isSigned: bool, negative: bool, b: Base, c: Conversion)
    requires BaseOk(b)
  {
    && out == Dup(SPACE, t.left) + t.sign + t.number + Dup(SPACE, t.right)
    && SignSays(t.sign, isSigned, negative, c) && NumberSays(t.number, value, b, c) && LengthSays(t, value, b, c)
  }

  /** The zeros in front of the digits in the buffer. */
  lemma BufferedIs(value: nat, b: Base, c: Conversion) returns (zeros: nat)
    requires Proper(b)
    ensures Reversed(Buffered(value, b, c)) == Dup(ZERO, zeros) + Reversed(LowFirst(value, b, c.group, 0))
    ensures var written := |LowFirst(value, b, c.group, 0)|;
            var least := Min(if c.precision < 0 then 1 else c.precision, 63);
            written + zeros == Max(written, least) + if c.pound && b.base == 8 && least <= written then 1 else 0
    ensures c.pound && b.base == 8 ==> zeros > 0
  {
    var digits := LowFirst(value, b, c.group, 0);
    var least := Min(if c.precision < 0 then 1 else c.precision, 63);
    var fill := Max(0, least - |digits|);
    var filled := digits + Dup(ZERO, fill);
    if value > 0 {
      TopDigit(value, b, c.group, 0);
    }
    assert fill > 0 ==> filled[|filled| - 1] == ZERO;
    assert fill == 0 ==> filled == digits;
    var mark := c.pound && b.base == 8 && fill == 0;
    zeros := fill + if mark then 1 else 0;
    assert Buffered(value, b, c) == digits + Dup(ZERO, zeros);
    ReversedJoin(digits, Dup(ZERO, zeros));
    ReversedDup(ZERO, zeros);
  }

  /** The number: "0x" if asked for, zeros, and the digits. */
  lemma NumberIs(value: nat, b: Base, c: Conversion, zeros: nat)
    requires Proper(b) && (c.pound && b.base == 8 ==> zeros > 0)
    ensures NumberSays(Prefix(value, b, c) + Dup(ZERO, zeros) + Reversed(LowFirst(value, b, c.group, 0)), value, b, c)
  {
    hide LowFirst, ReadIn, SeparatorSays, CharAt, DigitValue;
    var x, back := Prefix(value, b, c), Reversed(LowFirst(value, b, c.group, 0));
    var front := x + Dup(ZERO, zeros);
    ReadSilent(b, front);
    ReadDigits(value, b, c.group, 0);
    ReadAfter(b, front, back);
    forall i | 0 <= i < |front + back|
      ensures SeparatorSays(front + back, b, c.group, i)
    {
      SeparatorAt(value, b, c, front, i);
    }
    DigitsOrCommas(value, b, c.group);
    FrontSays(value, b, c, zeros, back);
  }

  lemma DigitsOrCommas(value: nat, b: Base, grouped: bool)
    requires Proper(b)
    ensures forall ch :: ch in Reversed(LowFirst(value, b, grouped, 0)) ==> ch in b.digits || ch == COMMA
  {
    var digits := LowFirst(value, b, grouped, 0);
    forall i | 0 <= i < |digits|
      ensures digits[i] in b.digits || digits[i] == COMMA
    {
      LowFirstCommas(value, b, grouped, 0, i);
    }
  }

  lemma FrontSays(value: nat, b: Base, c: Conversion, zeros: nat, back: seq<Octet>)
    requires Proper(b) && forall ch :: ch in back ==> ch in b.digits || ch == COMMA
    ensures var x := Prefix(value, b, c);
            var number := x + Dup(ZERO, zeros) + back;
            && (forall ch :: ch in number ==> ch in b.digits || ch == COMMA || ch == b.x)
            && (b.x in number <==> x != []) && (x != [] ==> b.x !in number[2..])
  {
    var x := Prefix(value, b, c);
    var rest := Dup(ZERO, zeros) + back;
    assert x + Dup(ZERO, zeros) + back == x + rest;
    assert b.x !in rest;
    assert x != [] ==> (x + rest)[2..] == rest && (x + rest)[1] == b.x;
  }

  lemma SeparatorAt(value: nat, b: Base, c: Conversion, front: seq<Octet>, i: nat)
    requires Proper(b) && Silent(b, front) && COMMA !in front
    requires i < |front| + |LowFirst(value, b, c.group, 0)|
    ensures SeparatorSays(front + Reversed(LowFirst(value, b, c.group, 0)), b, c.group, i)
  {
    hide ReadIn, LowFirst, SeparatorSays;
    var digits := LowFirst(value, b, c.group, 0);
    if i >= |digits| {
      SeparatorInFront(b, c.group, front, Reversed(digits), i);
    } else {
      LowFirstCommas(value, b, c.group, 0, i);
      if i + 1 < |digits| {
        LowFirstTail(value, b, c.group, 0, i + 1);
      }
      SeparatorBehind(b, c.group, front, digits, i);
    }
  }

  lemma SeparatorInFront(b: Base, grouped: bool, front: seq<Octet>, back: seq<Octet>, i: nat)
    requires Proper(b) && Silent(b, front) && COMMA !in front && |back| <= i < |front| + |back|
    ensures SeparatorSays(front + back, b, grouped, i)
  {
    hide ReadIn, Proper;
    var n := |front| + |back| - 1 - i;
    assert (front + back)[n] == front[n] && (front + back)[..n] == front[..n];
    assert Silent(b, front[..n]);
    ReadSilent(b, front[..n]);
  }

  lemma SeparatorBehind(b: Base, grouped: bool, front: seq<Octet>, digits: seq<Octet>, i: nat)
    requires Proper(b) && Silent(b, front) && i < |digits| && CharAt(b, grouped, digits, 0, i)
    requires i + 1 < |digits| ==> ReadIn(b, Reversed(digits[i + 1..])) > 0
    ensures SeparatorSays(front + Reversed(digits), b, grouped, i)
  {
    hide ReadIn, Proper, Silent;
    var number := front + Reversed(digits);
    var n := |number| - 1 - i;
    assert number[n] == digits[i];
    assert number[..n] == front + Reversed(digits[i + 1..]);
    ReadSilent(b, front);
    ReadAfter(b, front, Reversed(digits[i + 1..]));
  }

  /**
   * What format_integer prints, for every base with distinct digits: the digits of the text spell the value, '-' is there
   * exactly for a negative number, and every flag, the width and the precision have the effect that they promise.
   */
  lemma FormattedSays(value: nat, isSigned: bool, negative: bool, b: Base, c: Conversion) returns (t: Text)
    requires Proper(b)
    ensures Says(Formatted(value, isSigned, negative, b, c), t, value, isSigned, negative, b, c)
  {
    hide NumberSays, SignSays, LengthSays, LowFirst, Sign, Prefix, Buffered, Dup, Reversed, DigitCount;
    var zeros := BufferedIs(value, b, c);
    var body, sign, x := Buffered(value, b, c), Sign(isSigned, negative, c), Prefix(value, b, c);
    var pad := Max(0, c.width - |body| - |x| - |sign|);
    var zeroPad := if c.zero then pad else 0;
    var back := Reversed(LowFirst(value, b, c.group, 0));
    var number := x + Dup(ZERO, zeroPad + zeros) + back;
    t := Text(if c.minus || c.zero then 0 else pad, sign, number, if c.minus then pad else 0, DigitCount(value, b.base));
    NumberIs(value, b, c, zeroPad + zeros);
    SignIs(isSigned, negative, c);
    LengthIs(t, value, b, c, zeros, pad);
    DupAdd(ZERO, zeroPad, zeros);
    Joined(Dup(SPACE, t.left), sign, x, Dup(ZERO, zeroPad), Dup(ZERO, zeros), back, Dup(SPACE, t.right));
  }

  lemma DupAdd(ch: Octet, m: nat, n: nat)
    ensures Dup(ch, m + n) == Dup(ch, m) + Dup(ch, n)
  {
  }

  lemma Joined(left: seq<Octet>, sign: seq<Octet>, x: seq<Octet>, pad: seq<Octet>, zeros: seq<Octet>, back: seq<Octet>,
               right: seq<Octet>)
    ensures left + sign + x + pad + (zeros + back) + right == left + sign + (x + (pad + zeros) + back) + right
  {
    assert x + (pad + zeros) + back == x + pad + (zeros + back);
    assert left + sign + (x + pad + (zeros + back)) == left + sign + x + pad + (zeros + back);
  }

  lemma LengthIs(t: Text, value: nat, b: Base, c: Conversion, zeros: nat, pad: nat)
    requires BaseOk(b) && t.digits == DigitCount(value, b.base) && NumberSays(t.number, value, b, c)
    requires |t.number| == |Prefix(value, b, c)| + (if c.zero then pad else 0) + zeros + |LowFirst(value, b, c.group, 0)|
    requires pad == Max(0, c.width - zeros - |LowFirst(value, b, c.group, 0)| - |Prefix(value, b, c)| - |t.sign|)
    requires t.left == (if c.minus || c.zero then 0 else pad) && t.right == if c.minus then pad else 0
    requires var written := |LowFirst(value, b, c.group, 0)|;
             var least := Min(if c.precision < 0 then 1 else c.precision, 63);
             written + zeros == Max(written, least) + if c.pound && b.base == 8 && least <= written then 1 else 0
    ensures LengthSays(t, value, b, c)
  {
    hide NumberSays, HasDigits, LowFirst, Prefix;
    PrefixSays(t.number, value, b, c);
    DigitCountIs(value, b.base);
    LowFirstChars(value, b, c.group, 0);
  }

  lemma PrefixSays(number: seq<Octet>, value: nat, b: Base, c: Conversion)
    requires NumberSays(number, value, b, c)
    ensures |Prefix(value, b, c)| == if b.x in number then 2 else 0
  {
  }

  lemma SignIs(isSigned: bool, negative: bool, c: Conversion)
    ensures SignSays(Sign(isSigned, negative, c), isSigned, negative, c)
  {
  }

  // ---- octal fields ----

  /** The conversion "%0wo". */
  function ZeroPadded(width: nat): Conversion {
    Conversion(false, false, false, false, true, false, width, -1)
  }

  function OctalText(value: nat, width: nat): seq<Octet> {
    Formatted(value, false, false, OCTAL, ZeroPadded(width))
  }

  predicate IsOctalDigit(c: Octet) {
    48 <= c <= 55
  }

  /** The value of a string of octal digits, highest first. */
  function OctalValue(s: seq<Octet>): int {
    if s == [] then 0 else 8 * OctalValue(s[..|s| - 1]) + (s[|s| - 1] - ZERO)
  }

  lemma {:induction false} ReversedDigits(value: nat, cnt: nat)
    ensures var r := Reversed(LowFirst(value, OCTAL, false, cnt));
            (forall i :: 0 <= i < |r| ==> IsOctalDigit(r[i])) && OctalValue(r) == value
  {
    if value > 0 {
      ReversedDigits(value / 8, cnt + 1);
      var rest, all := LowFirst(value / 8, OCTAL, false, cnt + 1), LowFirst(value, OCTAL, false, cnt);
      assert all == [48 + value % 8] + rest;
      assert Reversed(all) == Reversed(rest) + [48 + value % 8];
      assert Reversed(all)[..|rest|] == Reversed(rest);
    }
  }

  lemma {:induction false} LeadingZeros(n: nat, s: seq<Octet>)
    ensures OctalValue(Dup(ZERO, n) + s) == OctalValue(s)
  {
    if s != [] {
      var t := Dup(ZERO, n) + s;
      assert t[..|t| - 1] == Dup(ZERO, n) + s[..|s| - 1];
      LeadingZeros(n, s[..|s| - 1]);
    } else if n > 0 {
      var t := Dup(ZERO, n) + s;
      assert t[..n - 1] == Dup(ZERO, n - 1) + [];
      LeadingZeros(n - 1, []);
    }
  }

  lemma {:induction false} OctalLength(value: nat, cnt: nat, k: nat)
    requires value < Pow(8, k)
    ensures |LowFirst(value, OCTAL, false, cnt)| <= k
    decreases k
  {
    if value > 0 {
      DigitsShrink(value, 8, k);
      OctalLength(value / 8, cnt + 1, k - 1);
    }
  }

  /** "%0wo" prints exactly w octal digits that read back as the value, for every value with at most w of them. */
  lemma OctalRoundTrip(value: nat, width: nat)
    requires 0 < width && value < Pow(8, width)
    ensures |OctalText(value, width)| == width && OctalValue(OctalText(value, width)) == value
    ensures forall i :: 0 <= i < width ==> IsOctalDigit(OctalText(value, width)[i])
  {
    var digits := LowFirst(value, OCTAL, false, 0);
    OctalLength(value, 0, width);
    ReversedDigits(value, 0);
    PaddedText(value, width);
    LeadingZeros(width - |digits|, Reversed(digits));
  }

  lemma PaddedText(value: nat, width: nat)
    requires |LowFirst(value, OCTAL, false, 0)| <= width && 0 < width
    ensures var digits := LowFirst(value, OCTAL, false, 0);
            OctalText(value, width) == Dup(ZERO, width - |digits|) + Reversed(digits)
  {
    var digits, body := LowFirst(value, OCTAL, false, 0), Buffered(value, OCTAL, ZeroPadded(width));
    if digits == [] {
      assert body == [ZERO] && Reversed(body) == [ZERO];
    } else {
      assert body == digits;
    }
  }
}
