/**
 * ustar archive headers (lib/ustar.c), in the format of the section "ustar Interchange Format" of the pax utility in
 * the Single UNIX Specification, version 3.
 */
module Ustar {
  import opened Wrappers
  import opened Sequences
  import opened Printf

  const HEADER_SIZE: nat := 512

  // ---- the layout of the header: where each field starts, and its size ----

  const NAME: nat := 0
  const NAME_SIZE: nat := 100
  const MODE: nat := 100
  const UID: nat := 108
  const GID: nat := 116
  const SIZE: nat := 124
  const SIZE_SIZE: nat := 12
  const MTIME: nat := 136
  const CHKSUM: nat := 148
  const CHKSUM_SIZE: nat := 8
  const TYPEFLAG: nat := 156
  const MAGIC: nat := 257
  const VERSION: nat := 263
  const UNAME: nat := 265
  const GNAME: nat := 297
  const PREFIX: nat := 345

  const REGULAR: Octet := 48     // '0'
  const DIRECTORY: Octet := 53   // '5'

  const SLASH: Octet := 47
  const DOT: Octet := 46

  const USTAR: seq<Octet> := [117, 115, 116, 97, 114]
  const ROOT: seq<Octet> := [114, 111, 111, 116]

  // ---- names ----

  /** A C string: no null byte inside. */
  predicate IsCString(s: seq<Octet>) {
    0 !in s
  }

  /** Starts with "/", "./" or "../". */
  predicate Antisocial(s: seq<Octet>) {
    || (|s| >= 1 && s[0] == SLASH)
    || (|s| >= 2 && s[0] == DOT && s[1] == SLASH)
    || (|s| >= 3 && s[0] == DOT && s[1] == DOT && s[2] == SLASH)
  }

  /** strchr for a character that is there. */
  function IndexOf(s: seq<Octet>, c: Octet): (i: nat)
    requires c in s
    ensures i < |s| && s[i] == c && c !in s[..i]
  {
    if s[0] == c then 0 else
      assert s == [s[0]] + s[1..];
      var i := IndexOf(s[1..], c) + 1;
      assert s[..i] == [s[0]] + s[1..][..i - 1];
      i
  }

  /** The name with its antisocial prefixes dropped. */
  function Strip(s: seq<Octet>): seq<Octet>
    decreases |s|
  {
    if Antisocial(s) then
      assert SLASH in s;
      Strip(s[IndexOf(s, SLASH) + 1..])
    else if s == [] || s == [DOT, DOT] then [DOT]
    else s
  }

  /** A stripped name is not empty, names no parent, starts with no dangerous prefix, and comes from the name. */
  lemma {:induction false} StripSocial(s: seq<Octet>)
    ensures Strip(s) != [] && Strip(s) != [DOT, DOT] && !Antisocial(Strip(s))
    ensures Strip(s) == [DOT] || exists k: nat :: k <= |s| && Strip(s) == s[k..]
    ensures IsCString(s) ==> IsCString(Strip(s))
    decreases |s|
  {
    if Antisocial(s) {
      assert SLASH in s;
      var i := IndexOf(s, SLASH) + 1;
      StripSocial(s[i..]);
      if Strip(s) != [DOT] {
        var k: nat :| k <= |s[i..]| && Strip(s) == s[i..][k..];
        assert s[i..][k..] == s[i + k..];
      }
    } else if s != [] && s != [DOT, DOT] {
      assert s == s[0..];
    }
  }

  lemma StripIdempotent(s: seq<Octet>)
    ensures Strip(Strip(s)) == Strip(s)
  {
    StripSocial(s);
  }

  /** A name that is not antisocial is kept, if it names anything; a dangerous prefix adds nothing to it. */
  lemma StripLaws(dots: seq<Octet>, s: seq<Octet>)
    requires dots == [] || dots == [DOT] || dots == [DOT, DOT]
    ensures !Antisocial(s) ==> Strip(s) == if s == [] || s == [DOT, DOT] then [DOT] else s
    ensures Strip(dots + [SLASH] + s) == Strip(s)
  {
    var t := dots + [SLASH] + s;
    assert t[|dots|] == SLASH && Antisocial(t);
    var i := IndexOf(t, SLASH);
    forall j | 0 <= j < i
      ensures t[j] != SLASH
    {
      assert t[..i][j] == t[j];
    }
    assert t[i + 1..] == s;
  }

  /** The first k bytes of s are a chain of "/", "./" and "../". */
  ghost predicate Prefixes(s: seq<Octet>, k: nat)
    requires k <= |s|
  {
    || k == 0
    || (k >= 1 && s[k - 1] == SLASH && Prefixes(s, k - 1))
    || (k >= 2 && s[k - 2] == DOT && s[k - 1] == SLASH && Prefixes(s, k - 2))
    || (k >= 3 && s[k - 3] == DOT && s[k - 2] == DOT && s[k - 1] == SLASH && Prefixes(s, k - 3))
  }

  /** Where dropping prefixes stops: at the end of a chain of them, and no earlier end will do. */
  ghost predicate StopsAt(s: seq<Octet>, k: nat) {
    k <= |s| && Prefixes(s, k) && !Antisocial(s[k..]) && forall j :: 0 <= j < k && Prefixes(s, j) ==> Antisocial(s[j..])
  }

  /** strip_antisocial_prefixes. */
  method StripAntisocialPrefixes(fileName: seq<Octet>) returns (r: seq<Octet>, ghost k: nat)
    ensures r == Strip(fileName) && StopsAt(fileName, k)
    ensures r == if k == |fileName| || fileName[k..] == [DOT, DOT] then [DOT] else fileName[k..]
  {
    hide Prefixes, Antisocial, IndexOf;
    var s := fileName;
    k := 0;
    NoPrefix(fileName);
    while Antisocial(s)
      invariant Strip(s) == Strip(fileName) && k <= |fileName| && s == fileName[k..] && Prefixes(fileName, k)
      invariant forall j :: 0 <= j < k && Prefixes(fileName, j) ==> Antisocial(fileName[j..])
      decreases |s|
    {
      HasSlash(s);
      ghost var i := IndexOf(s, SLASH);
      OnePrefix(fileName, k, i);
      s := s[IndexOf(s, SLASH) + 1..];
      k := k + i + 1;
    }
    r := if s == [] || s == [DOT, DOT] then [DOT] else s;
  }

  lemma NoPrefix(s: seq<Octet>)
    ensures Prefixes(s, 0)
  {
  }

  /** Dropping an antisocial rest through its first slash drops one prefix, and none ends inside it. */
  lemma OnePrefix(s: seq<Octet>, k: nat, i: nat)
    requires k <= |s| && Prefixes(s, k) && Antisocial(s[k..])
    requires i < |s| - k && s[k + i] == SLASH && SLASH !in s[k..][..i]
    ensures Prefixes(s, k + i + 1) && s[k..][i + 1..] == s[k + i + 1..]
    ensures forall j :: k < j <= k + i ==> !Prefixes(s, j)
  {
    var t := s[k..];
    forall j | k < j <= k + i
      ensures !Prefixes(s, j)
    {
      assert t[..i][j - 1 - k] == s[j - 1];
    }
    forall j | 0 <= j < i
      ensures t[j] != SLASH
    {
      assert t[..i][j] == t[j];
    }
  }

  // ---- fields ----

  function Field(h: seq<Octet>, ofs: nat, size: nat): (f: seq<Octet>)
    requires ofs + size <= |h|
    ensures |f| == size
  {
    h[ofs..ofs + size]
  }

  /** memcpy into the header. */
  method Copy(h: array<Octet>, ofs: nat, data: seq<Octet>)
    requires ofs + |data| <= h.Length
    modifies h
    ensures h[..] == Overwrite(old(h[..]), ofs, data)
  {
    for i := 0 to |data|
      invariant forall k :: 0 <= k < h.Length ==> h[k] == if ofs <= k < ofs + i then data[k - ofs] else old(h[k])
    {
      h[ofs + i] := data[i];
    }
  }

  /** The text as strlcpy and snprintf leave it: cut to size - 1 bytes, then a null byte. */
  function Terminated(text: seq<Octet>, size: nat): (r: seq<Octet>)
    requires size > 0
    ensures |r| <= size
  {
    (if |text| < size then text else text[..size - 1]) + [0]
  }

  /** strlcpy into a header field. */
  method Strlcpy(h: array<Octet>, ofs: nat, text: seq<Octet>, size: nat)
    requires 0 < size && ofs + size <= h.Length
    modifies h
    ensures h[..] == Overwrite(old(h[..]), ofs, Terminated(text, size))
    ensures var n := if |text| < size then |text| else size - 1;
            h[ofs..ofs + n] == text[..n] && h[ofs + n] == 0
    ensures forall k :: 0 <= k < h.Length && !(ofs <= k < ofs + size) ==> h[k] == old(h[k])
  {
    var n := if |text| < size - 1 then |text| else size - 1;
    assert Terminated(text, size) == text[..n] + [0];
    Copy(h, ofs, text[..n]);
    h[ofs + n] := 0;
    Overwritten(old(h[..]), h[..], ofs, text[..n]);
  }

  lemma Overwritten(before: seq<Octet>, after: seq<Octet>, ofs: nat, text: seq<Octet>)
    requires ofs + |text| + 1 <= |before| && after == Overwrite(before, ofs, text + [0])
    ensures after[ofs..ofs + |text|] == text && after[ofs + |text|] == 0
    ensures forall k :: 0 <= k < |before| && !(ofs <= k <= ofs + |text|) ==> after[k] == before[k]
  {
  }

  /** vsnprintf once the text is known: vsnprintf_helper drops what does not fit, and a null byte follows. */
  method Vsnprintf(h: array<Octet>, ofs: nat, size: nat, text: seq<Octet>)
    requires 0 < size && ofs + size <= h.Length
    modifies h
    ensures h[..] == Overwrite(old(h[..]), ofs, Terminated(text, size))
    ensures var n := if |text| < size then |text| else size - 1;
            h[ofs..ofs + n] == text[..n] && h[ofs + n] == 0
    ensures forall k :: 0 <= k < h.Length && !(ofs <= k < ofs + size) ==> h[k] == old(h[k])
  {
    var p: nat := 0;
    for length := 0 to |text|
      invariant p == if length < size - 1 then length else size - 1
      invariant forall k :: 0 <= k < h.Length ==> h[k] == if ofs <= k < ofs + p then text[k - ofs] else old(h[k])
    {
      if length < size - 1 {
        h[ofs + p] := text[length];
        p := p + 1;
      }
    }
    assert Terminated(text, size) == text[..p] + [0];
    h[ofs + p] := 0;
    Overwritten(old(h[..]), h[..], ofs, text[..p]);
  }

  /** snprintf of one octal number, "%0wo", into a header field. */
  method SnprintfOctal(h: array<Octet>, ofs: nat, size: nat, width: nat, value: nat)
    requires 0 < size && ofs + size <= h.Length && value < UINTMAX
    modifies h
    ensures h[..] == Overwrite(old(h[..]), ofs, Terminated(OctalText(value, width), size))
  {
    var text, _ := FormatInteger(value, false, false, OCTAL, ZeroPadded(width));
    Vsnprintf(h, ofs, size, text);
  }

  // ---- checksum ----

  /** The sum of the first n octets, with the checksum field taken as spaces. */
  function Sum(h: seq<Octet>, n: nat): (s: nat)
    requires n <= |h|
    ensures s <= 255 * n
  {
    if n == 0 then 0 else Sum(h, n - 1) + (if CHKSUM <= n - 1 < CHKSUM + CHKSUM_SIZE then SPACE else h[n - 1])
  }

  /** calculate_chksum. */
  method CalculateChksum(h: seq<Octet>) returns (chksum: nat)
    requires |h| == HEADER_SIZE
    ensures chksum == Sum(h, HEADER_SIZE)
  {
    chksum := 0;
    for i := 0 to HEADER_SIZE
      invariant chksum == Sum(h, i)
    {
      var inField := i >= CHKSUM && i < CHKSUM + CHKSUM_SIZE;
      chksum := chksum + (if inField then SPACE else h[i]);
    }
  }

  /** The octets of s added up. */
  ghost function Total(s: seq<Octet>): nat {
    if s == [] then 0 else Total(s[..|s| - 1]) + s[|s| - 1]
  }

  lemma {:induction false} SumOfPart(h: seq<Octet>, ofs: nat, n: nat)
    requires ofs <= n <= |h| && (n <= 148 || 156 <= ofs)
    ensures Sum(h, n) == Sum(h, ofs) + Total(h[ofs..n])
  {
    if ofs < n {
      SumOfPart(h, ofs, n - 1);
      assert h[ofs..n][..n - 1 - ofs] == h[ofs..n - 1];
    }
  }

  /** The checksum of a header: the octets before and behind the field, and eight spaces for the field. */
  lemma SumIs(h: seq<Octet>)
    requires |h| == HEADER_SIZE
    ensures Sum(h, HEADER_SIZE) == Total(h[..148]) + 8 * 32 + Total(h[156..])
  {
    SumOfPart(h, 0, 148);
    assert Sum(h, 150) == Sum(h, 148) + 64;
    assert Sum(h, 152) == Sum(h, 150) + 64;
    assert Sum(h, 154) == Sum(h, 152) + 64;
    assert Sum(h, 156) == Sum(h, 154) + 64;
    SumOfPart(h, 156, HEADER_SIZE);
    assert h[0..148] == h[..148] && h[156..HEADER_SIZE] == h[156..];
  }

  /** Changing one octet outside the checksum field changes the sum by just as much. */
  lemma {:induction false} SumChanged(h: seq<Octet>, k: nat, x: Octet, n: nat)
    requires k < |h| && n <= |h| && !(CHKSUM <= k < CHKSUM + CHKSUM_SIZE)
    ensures Sum(h[k := x], n) == Sum(h, n) + (if k < n then x - h[k] else 0)
  {
    if n > 0 {
      SumChanged(h, k, x, n - 1);
    }
  }

  /** The checksum field itself does not count. */
  lemma {:induction false} SumIgnoresField(h: seq<Octet>, data: seq<Octet>, n: nat)
    requires |h| == HEADER_SIZE && |data| == CHKSUM_SIZE && n <= HEADER_SIZE
    ensures Sum(Overwrite(h, CHKSUM, data), n) == Sum(h, n)
  {
    if n > 0 {
      SumIgnoresField(h, data, n - 1);
    }
  }

  // ---- octal fields ----

  const ULONG_MAX: nat := 0xFFFF_FFFF

  /** How many octal digits s starts with. */
  function DigitRun(s: seq<Octet>): (n: nat)
    ensures n <= |s| && (forall i :: 0 <= i < n ==> IsOctalDigit(s[i])) && (n < |s| ==> !IsOctalDigit(s[n]))
  {
    if s == [] || !IsOctalDigit(s[0]) then 0 else 1 + DigitRun(s[1..])
  }

  /** What an octal field holds: digits, at least one, ended by a space or null byte, with a value that fits. */
  function OctalField(s: seq<Octet>): Option<nat> {
    var n := DigitRun(s);
    if n == 0 || n == |s| || (s[n] != SPACE && s[n] != 0) || OctalValue(s[..n]) > ULONG_MAX || OctalValue(s[..n]) < 0 then None
    else Some(OctalValue(s[..n]))
  }

  lemma {:induction false} OctalValueGrows(s: seq<Octet>, i: nat, n: nat)
    requires i <= n <= |s| && forall k :: 0 <= k < n ==> IsOctalDigit(s[k])
    ensures 0 <= OctalValue(s[..i]) <= OctalValue(s[..n])
    decreases n
  {
    if n > 0 {
      assert s[..n][..n - 1] == s[..n - 1];
      OctalValueGrows(s, if i < n then i else n - 1, n - 1);
    }
  }

  /** parse_octal_field. */
  method ParseOctalField(s: seq<Octet>) returns (value: Option<nat>)
    ensures value == OctalField(s)
  {
    var v: nat := 0;
    ghost var n := DigitRun(s);
    for ofs := 0 to |s|
      invariant ofs <= n && v == OctalValue(s[..ofs]) && v <= ULONG_MAX
    {
      var c := s[ofs];
      if c >= 48 && c <= 55 {
        assert s[..ofs + 1][..ofs] == s[..ofs];
        OctalValueGrows(s, ofs + 1, n);
        if v > ULONG_MAX / 8 {
          return None;
        }
        v := c - 48 + v * 8;
      } else if c == SPACE || c == 0 {
        return if ofs > 0 then Some(v) else None;
      } else {
        return None;
      }
    }
    return None;
  }

  lemma {:induction false} OctalReads(s: seq<Octet>)
    requires forall i :: 0 <= i < |s| ==> IsOctalDigit(s[i])
    ensures OctalValue(s) == ReadIn(OCTAL, s)
  {
    if s != [] {
      var u, ch := s[..|s| - 1], s[|s| - 1];
      assert s == u + [ch];
      OctalReads(u);
      assert ch == OCTAL.digits[ch - 48];
      BasesProper();
      DigitIs(OCTAL, ch - 48);
      ReadNext(OCTAL, u, ch);
    }
  }

  /** s starts with n octal digits, at least one, and then a space or a null byte. */
  ghost predicate FieldOf(s: seq<Octet>, n: nat) {
    0 < n < |s| && (forall i :: 0 <= i < n ==> 48 <= s[i] <= 55) && (s[n] == 32 || s[n] == 0)
  }

  /** An octal field is its digits, read in base eight, if they end properly and fit in 32 bits. */
  lemma OctalFieldIs(s: seq<Octet>, n: nat)
    ensures FieldOf(s, n) ==>
              OctalField(s) == if ReadIn(OCTAL, s[..n]) < 0x1_0000_0000 then Some(ReadIn(OCTAL, s[..n])) else None
    ensures (forall k :: !FieldOf(s, k)) ==> OctalField(s) == None
  {
    var d := DigitRun(s);
    if FieldOf(s, n) {
      assert d == n;
      OctalReads(s[..n]);
    } else if forall k :: !FieldOf(s, k) {
      assert !FieldOf(s, d);
    }
  }

  /** A printed number ended by a null byte reads back. */
  lemma OctalFieldOfText(value: nat, width: nat, size: nat)
    requires 0 < width < size && value < Pow(8, width) && value <= ULONG_MAX
    ensures OctalField(Terminated(OctalText(value, width), size)) == Some(value)
  {
    OctalRoundTrip(value, width);
    var t := OctalText(value, width);
    var f := Terminated(t, size);
    assert f == t + [0];
    assert |f| == width + 1 && f[width] == 0;
    assert forall i :: 0 <= i < width ==> IsOctalDigit(f[i]);
    assert f[..width] == t;
  }

  // ---- headers as pieces ----

  datatype Piece = Piece(ofs: nat, data: seq<Octet>)

  predicate InHeader(p: Piece) {
    p.ofs + |p.data| <= HEADER_SIZE
  }

  ghost predicate Apart(p: Piece, q: Piece) {
    p.ofs + |p.data| <= q.ofs || q.ofs + |q.data| <= p.ofs
  }

  ghost predicate Layout(pieces: seq<Piece>) {
    && (forall i :: 0 <= i < |pieces| ==> InHeader(pieces[i]))
    && (forall i, j :: 0 <= i < j < |pieces| ==> Apart(pieces[i], pieces[j]))
  }

  /** The pieces put into a header of zeros, one after the other. */
  function PutAll(pieces: seq<Piece>): (h: seq<Octet>)
    requires forall i :: 0 <= i < |pieces| ==> InHeader(pieces[i])
    ensures |h| == HEADER_SIZE
  {
    if pieces == [] then Dup(0, HEADER_SIZE) else
      assert InHeader(pieces[|pieces| - 1]);
      Overwrite(PutAll(pieces[..|pieces| - 1]), pieces[|pieces| - 1].ofs, pieces[|pieces| - 1].data)
  }

  /** Each piece of a layout is found where it was put, whatever was put after it. */
  lemma {:induction false} PieceFound(pieces: seq<Piece>, i: nat)
    requires Layout(pieces) && i < |pieces|
    ensures Field(PutAll(pieces), pieces[i].ofs, |pieces[i].data|) == pieces[i].data
  {
    var n := |pieces| - 1;
    if i < n {
      PieceFound(pieces[..n], i);
      assert Apart(pieces[i], pieces[n]);
      var before, after := PutAll(pieces[..n]), PutAll(pieces);
      assert pieces[..n][i] == pieces[i];
      assert Field(after, pieces[i].ofs, |pieces[i].data|) == Field(before, pieces[i].ofs, |pieces[i].data|);
    }
  }

  /** A byte that no piece covers is zero. */
  lemma {:induction false} GapIsZero(pieces: seq<Piece>, k: nat)
    requires (forall i :: 0 <= i < |pieces| ==> InHeader(pieces[i])) && k < HEADER_SIZE
    requires Uncovered(pieces, k)
    ensures PutAll(pieces)[k] == 0
  {
    if pieces != [] {
      GapIsZero(pieces[..|pieces| - 1], k);
    }
  }

  // ---- making a header ----

  /** An int as the unsigned value that "%o" prints. */
  function Unsigned(x: int): nat
    requires -0x8000_0000 <= x < 0x8000_0000
  {
    if x < 0 then x + 0x1_0000_0000 else x
  }

  predicate IsInt(x: int) {
    -0x8000_0000 <= x < 0x8000_0000
  }

  const MTIME_VALUE: nat := 1136102400

  const NUMBER: seq<Octet> := [48, 48, 48, 48, 48, 48, 48]   // "0000000"

  /** The fields, in the order they are filled in, all but the checksum. */
  function Assemble(name: seq<Octet>, mode: seq<Octet>, size: seq<Octet>, mtime: seq<Octet>, typ: Octet): (ps: seq<Piece>)
    requires |name| <= NAME_SIZE && |mode| <= 8 && |size| <= SIZE_SIZE && |mtime| <= SIZE_SIZE
    ensures Layout(ps)
  {
    [ Piece(NAME, name), Piece(MODE, mode), Piece(UID, NUMBER + [0]), Piece(GID, NUMBER + [0]), Piece(SIZE, size),
      Piece(MTIME, mtime), Piece(TYPEFLAG, [typ]), Piece(MAGIC, USTAR + [0]), Piece(VERSION, [ZERO, ZERO]),
      Piece(GNAME, ROOT + [0]), Piece(UNAME, ROOT + [0]) ]
  }

  lemma PutNext(ps: seq<Piece>, k: nat)
    requires Layout(ps) && k < |ps|
    ensures InHeader(ps[k])
    ensures PutAll(ps[..k + 1]) == Overwrite(PutAll(ps[..k]), ps[k].ofs, ps[k].data)
  {
    assert ps[..k + 1][..k] == ps[..k];
  }

  /** The pieces for a file of this name, type and size. */
  function Pieces(name: seq<Octet>, typ: Octet, size: int): (ps: seq<Piece>)
    requires IsInt(size)
    ensures Layout(ps)
  {
    Assemble(Terminated(name, NAME_SIZE), Terminated(OctalText(Mode(typ), 7), 8),
             Terminated(OctalText(Unsigned(size), 11), SIZE_SIZE), Terminated(OctalText(MTIME_VALUE, 11), SIZE_SIZE), typ)
  }

  /** 0644 for a regular file, 0755 for a directory. */
  function Mode(typ: Octet): nat {
    if typ == REGULAR then 420 else 493
  }

  /** h with its checksum field filled in. */
  function Summed(h: seq<Octet>): (r: seq<Octet>)
    requires |h| == HEADER_SIZE
    ensures |r| == HEADER_SIZE
  {
    Overwrite(h, CHKSUM, Terminated(OctalText(Sum(h, HEADER_SIZE), 7), CHKSUM_SIZE))
  }

  function Header(name: seq<Octet>, typ: Octet, size: int): (h: seq<Octet>)
    requires IsInt(size)
    ensures |h| == HEADER_SIZE
  {
    Summed(PutAll(Pieces(name, typ, size)))
  }

  /** The first fields of ustar_make_header. */
  method FillFirst(h: array<Octet>, name: seq<Octet>, typ: Octet, size: int)
    requires h.Length == HEADER_SIZE && h[..] == Dup(0, HEADER_SIZE) && IsInt(size)
    modifies h
    ensures h[..] == PutAll(Pieces(name, typ, size)[..5])
  {
    ghost var ps := Pieces(name, typ, size);
    assert ps[..0] == [];
    PutNext(ps, 0);
    PutNext(ps, 1);
    PutNext(ps, 2);
    PutNext(ps, 3);
    PutNext(ps, 4);
    Strlcpy(h, NAME, name, NAME_SIZE);
    SnprintfOctal(h, MODE, 8, 7, Mode(typ));
    assert Terminated(NUMBER, 8) == NUMBER + [0];
    Strlcpy(h, UID, NUMBER, 8);
    Strlcpy(h, GID, NUMBER, 8);
    SnprintfOctal(h, SIZE, SIZE_SIZE, 11, Unsigned(size));
  }

  /** The other fields up to the checksum. */
  method FillRest(h: array<Octet>, name: seq<Octet>, typ: Octet, size: int)
    requires h.Length == HEADER_SIZE && IsInt(size) && h[..] == PutAll(Pieces(name, typ, size)[..5])
    modifies h
    ensures h[..] == PutAll(Pieces(name, typ, size))
  {
    ghost var ps := Pieces(name, typ, size);
    PutNext(ps, 5);
    PutNext(ps, 6);
    PutNext(ps, 7);
    PutNext(ps, 8);
    PutNext(ps, 9);
    PutNext(ps, 10);
    assert ps[..11] == ps;
    SnprintfOctal(h, MTIME, SIZE_SIZE, 11, MTIME_VALUE);
    Copy(h, TYPEFLAG, [typ]);
    assert Terminated(USTAR, 6) == USTAR + [0] && Terminated(ROOT, 32) == ROOT + [0];
    Strlcpy(h, MAGIC, USTAR, 6);
    Copy(h, VERSION, [ZERO, ZERO]);
    Strlcpy(h, GNAME, ROOT, 32);
    Strlcpy(h, UNAME, ROOT, 32);
  }

  /** ustar_make_header: it fails exactly for a stripped name of more than 99 bytes. */
  method MakeHeader(fileName: seq<Octet>, typ: Octet, size: int) returns (header: Option<seq<Octet>>)
    requires IsInt(size) && (typ == REGULAR || typ == DIRECTORY)
    ensures header.None? <==> |Strip(fileName)| > 99
    ensures header.Some? ==> header.value == Header(Strip(fileName), typ, size)
  {
    var name, _ := StripAntisocialPrefixes(fileName);
    if |name| > 99 {
      return None;
    }
    var h := new Octet[HEADER_SIZE](_ => 0);
    assert h[..] == Dup(0, HEADER_SIZE);
    FillFirst(h, name, typ, size);
    FillRest(h, name, typ, size);
    var chksum := CalculateChksum(h[..]);
    SnprintfOctal(h, CHKSUM, CHKSUM_SIZE, 7, chksum);
    return Some(h[..]);
  }

  // ---- parsing a header ----

  datatype Message =
    | NotUstar | InvalidVersion | CorruptChksum | ChksumMismatch | NameTooLong | UnimplementedType | CorruptSize | TooLarge

  datatype Parsed = Eof | Entry(name: seq<Octet>, typ: Octet, size: nat) | Error(message: Message)

  const INT_MAX: nat := 0x7FFF_FFFF

  /** The C string at the start of s. */
  function CString(s: seq<Octet>): seq<Octet> {
    if 0 in s then s[..IndexOf(s, 0)] else s
  }

  /** What ustar_parse_header makes of a header. */
  function Parse(h: seq<Octet>): Parsed
    requires |h| == HEADER_SIZE
  {
    var chksum, size := OctalField(Field(h, CHKSUM, CHKSUM_SIZE)), OctalField(Field(h, SIZE, SIZE_SIZE));
    if forall i :: 0 <= i < HEADER_SIZE ==> h[i] == 0 then Eof
    else if Field(h, MAGIC, 6) != USTAR + [0] then Error(NotUstar)
    else if h[VERSION] != ZERO || h[VERSION + 1] != ZERO then Error(InvalidVersion)
    else if chksum.None? then Error(CorruptChksum)
    else if chksum.value != Sum(h, HEADER_SIZE) then Error(ChksumMismatch)
    else if h[NAME + NAME_SIZE - 1] != 0 || h[PREFIX] != 0 then Error(NameTooLong)
    else if h[TYPEFLAG] != REGULAR && h[TYPEFLAG] != DIRECTORY then Error(UnimplementedType)
    else if h[TYPEFLAG] == REGULAR && size.None? then Error(CorruptSize)
    else if h[TYPEFLAG] == REGULAR && size.value > INT_MAX then Error(TooLarge)
    else Entry(Strip(CString(Field(h, NAME, NAME_SIZE))), h[TYPEFLAG], if h[TYPEFLAG] == REGULAR then size.value else 0)
  }

  method IsAllZeros(s: seq<Octet>) returns (b: bool)
    ensures b <==> forall i :: 0 <= i < |s| ==> s[i] == 0
  {
    for i := 0 to |s|
      invariant forall k :: 0 <= k < i ==> s[k] == 0
    {
      if s[i] != 0 {
        return false;
      }
    }
    return true;
  }

  /** ustar_parse_header. */
  method ParseHeader(h: seq<Octet>) returns (r: Parsed)
    requires |h| == HEADER_SIZE
    ensures r == Parse(h)
  {
    var end := IsAllZeros(h);
    if end {
      return Eof;
    }
    if Field(h, MAGIC, 6) != USTAR + [0] {
      return Error(NotUstar);
    } else if h[VERSION] != ZERO || h[VERSION + 1] != ZERO {
      return Error(InvalidVersion);
    }
    var chksum := ParseOctalField(Field(h, CHKSUM, CHKSUM_SIZE));
    if chksum.None? {
      return Error(CorruptChksum);
    }
    var sum := CalculateChksum(h);
    if chksum.value != sum {
      return Error(ChksumMismatch);
    } else if h[NAME + NAME_SIZE - 1] != 0 || h[PREFIX] != 0 {
      return Error(NameTooLong);
    } else if h[TYPEFLAG] != REGULAR && h[TYPEFLAG] != DIRECTORY {
      return Error(UnimplementedType);
    }
    var size: nat := 0;
    if h[TYPEFLAG] == REGULAR {
      var field := ParseOctalField(Field(h, SIZE, SIZE_SIZE));
      if field.None? {
        return Error(CorruptSize);
      } else if field.value > INT_MAX {
        return Error(TooLarge);
      }
      size := field.value;
    }
    var name, _ := StripAntisocialPrefixes(CString(Field(h, NAME, NAME_SIZE)));
    return Entry(name, h[TYPEFLAG], size);
  }

  // ---- what a header carries ----

  /** A changed octet outside the checksum field never goes unnoticed. */
  lemma OneChangeDetected(h: seq<Octet>, k: nat, x: Octet)
    requires |h| == HEADER_SIZE && Parse(h).Entry?
    requires k < HEADER_SIZE && !(CHKSUM <= k < CHKSUM + CHKSUM_SIZE) && x != h[k]
    ensures Parse(h[k := x]).Error?
  {
    var h' := h[k := x];
    SumChanged(h, k, x, HEADER_SIZE);
    assert Field(h', CHKSUM, CHKSUM_SIZE) == Field(h, CHKSUM, CHKSUM_SIZE);
    assert Field(h, MAGIC, 6)[0] == h[MAGIC] && Field(h, MAGIC, 6)[1] == h[MAGIC + 1];
    assert h'[MAGIC] != 0 || h'[MAGIC + 1] != 0;
  }

  lemma Powers()
    ensures Pow(8, 7) == 2097152 && Pow(8, 11) > ULONG_MAX
  {
    PowAdd(8, 3, 4);
    PowAdd(8, 4, 7);
    assert Pow(8, 3) == 512 && Pow(8, 4) == 4096;
  }

  /** Filling in the checksum touches no other field. */
  lemma SummedKeeps(h: seq<Octet>, ofs: nat, n: nat)
    requires |h| == HEADER_SIZE && ofs + n <= HEADER_SIZE && (ofs + n <= CHKSUM || CHKSUM + CHKSUM_SIZE <= ofs)
    ensures Field(Summed(h), ofs, n) == Field(h, ofs, n)
  {
  }

  /** The checksum that was filled in is read back, and it is the checksum of the whole. */
  lemma ChksumRoundTrip(h: seq<Octet>)
    requires |h| == HEADER_SIZE
    ensures OctalField(Field(Summed(h), CHKSUM, CHKSUM_SIZE)) == Some(Sum(Summed(h), HEADER_SIZE))
  {
    var sum := Sum(h, HEADER_SIZE);
    Powers();
    OctalRoundTrip(sum, 7);
    var data := Terminated(OctalText(sum, 7), CHKSUM_SIZE);
    assert |data| == CHKSUM_SIZE;
    OctalFieldOfText(sum, 7, CHKSUM_SIZE);
    assert Field(Summed(h), CHKSUM, CHKSUM_SIZE) == data;
    SumIgnoresField(h, data, HEADER_SIZE);
  }

  /** A piece of the header other than the checksum, as it is found in the end. */
  lemma HeaderPiece(name: seq<Octet>, typ: Octet, size: int, i: nat)
    requires IsInt(size) && i < |Pieces(name, typ, size)|
    requires var p := Pieces(name, typ, size)[i]; p.ofs + |p.data| <= CHKSUM || CHKSUM + CHKSUM_SIZE <= p.ofs
    ensures var p := Pieces(name, typ, size)[i]; Field(Header(name, typ, size), p.ofs, |p.data|) == p.data
  {
    var ps := Pieces(name, typ, size);
    PieceFound(ps, i);
    SummedKeeps(PutAll(ps), ps[i].ofs, |ps[i].data|);
  }

  ghost predicate Uncovered(ps: seq<Piece>, k: nat) {
    forall i :: 0 <= i < |ps| ==> k < ps[i].ofs || ps[i].ofs + |ps[i].data| <= k
  }

  lemma AssembleGaps(name: seq<Octet>, mode: seq<Octet>, size: seq<Octet>, mtime: seq<Octet>, typ: Octet)
    requires |name| <= NAME_SIZE && |mode| <= 8 && |size| <= SIZE_SIZE && |mtime| <= SIZE_SIZE
    ensures Uncovered(Assemble(name, mode, size, mtime, typ), PREFIX)
    ensures |name| < NAME_SIZE ==> Uncovered(Assemble(name, mode, size, mtime, typ), NAME + NAME_SIZE - 1)
  {
  }

  lemma PiecesGaps(name: seq<Octet>, typ: Octet, size: int)
    requires IsInt(size)
    ensures Uncovered(Pieces(name, typ, size), PREFIX)
    ensures |name| < 99 ==> Uncovered(Pieces(name, typ, size), NAME + NAME_SIZE - 1)
  {
    hide Assemble, Uncovered;
    AssembleGaps(Terminated(name, NAME_SIZE), Terminated(OctalText(Mode(typ), 7), 8),
                 Terminated(OctalText(Unsigned(size), 11), SIZE_SIZE), Terminated(OctalText(MTIME_VALUE, 11), SIZE_SIZE), typ);
  }

  /** The prefix is empty, and so is the last byte of the name field unless the name reaches it. */
  lemma HeaderGaps(name: seq<Octet>, typ: Octet, size: int)
    requires IsInt(size)
    ensures Header(name, typ, size)[PREFIX] == 0
    ensures |name| < 99 ==> Header(name, typ, size)[NAME + NAME_SIZE - 1] == 0
  {
    hide Pieces, Uncovered, PutAll;
    var ps := Pieces(name, typ, size);
    PiecesGaps(name, typ, size);
    GapIsZero(ps, PREFIX);
    if |name| < 99 {
      GapIsZero(ps, NAME + NAME_SIZE - 1);
    }
  }

  lemma CStringFound(f: seq<Octet>, name: seq<Octet>)
    requires |name| < |f| && f[..|name| + 1] == name + [0] && IsCString(name)
    ensures CString(f) == name
  {
    assert f[|name|] == f[..|name| + 1][|name|] == 0;
    assert forall k :: 0 <= k < |name| ==> f[k] == f[..|name| + 1][k] == name[k];
    assert IndexOf(f, 0) == |name|;
  }

  lemma HeaderName(name: seq<Octet>, typ: Octet, size: int)
    requires IsInt(size) && |name| <= 99 && IsCString(name)
    ensures CString(Field(Header(name, typ, size), NAME, NAME_SIZE)) == name
  {
    HeaderPiece(name, typ, size, 0);
    var h := Header(name, typ, size);
    assert Field(h, NAME, NAME_SIZE)[..|name| + 1] == Field(h, NAME, |name| + 1);
    CStringFound(Field(h, NAME, NAME_SIZE), name);
  }

  lemma HeaderNameEnds(name: seq<Octet>, typ: Octet, size: int)
    requires IsInt(size) && |name| <= 99
    ensures Header(name, typ, size)[NAME + NAME_SIZE - 1] == 0
  {
    hide Header;
    HeaderGaps(name, typ, size);
    if |name| == 99 {
      HeaderPiece(name, typ, size, 0);
      assert Header(name, typ, size)[99] == Field(Header(name, typ, size), NAME, NAME_SIZE)[99];
    }
  }

  lemma HeaderMarks(name: seq<Octet>, typ: Octet, size: int)
    requires IsInt(size)
    ensures var h := Header(name, typ, size);
            Field(h, MAGIC, 6) == USTAR + [0] && h[VERSION] == ZERO && h[VERSION + 1] == ZERO && h[PREFIX] == 0
  {
    var h := Header(name, typ, size);
    HeaderPiece(name, typ, size, 7);
    HeaderPiece(name, typ, size, 8);
    assert Field(h, VERSION, 2)[0] == h[VERSION] && Field(h, VERSION, 2)[1] == h[VERSION + 1];
    HeaderGaps(name, typ, size);
  }

  lemma HeaderType(name: seq<Octet>, typ: Octet, size: int)
    requires IsInt(size)
    ensures Header(name, typ, size)[TYPEFLAG] == typ
  {
    HeaderPiece(name, typ, size, 6);
    assert Field(Header(name, typ, size), TYPEFLAG, 1)[0] == Header(name, typ, size)[TYPEFLAG];
  }

  lemma HeaderSize(name: seq<Octet>, typ: Octet, size: int)
    requires IsInt(size)
    ensures OctalField(Field(Header(name, typ, size), SIZE, SIZE_SIZE)) == Some(Unsigned(size))
  {
    Powers();
    OctalRoundTrip(Unsigned(size), 11);
    OctalFieldOfText(Unsigned(size), 11, SIZE_SIZE);
    HeaderPiece(name, typ, size, 4);
  }

  /** A field of seven or eleven octal digits and a null byte. */
  lemma NumberPiece(name: seq<Octet>, typ: Octet, size: int, i: nat, value: nat, width: nat)
    requires IsInt(size) && i < |Pieces(name, typ, size)| && 0 < width && value < Pow(8, width) && value <= ULONG_MAX
    requires var p := Pieces(name, typ, size)[i];
             p.data == Terminated(OctalText(value, width), width + 1) && p.ofs + width + 1 <= CHKSUM
    ensures var h, ofs := Header(name, typ, size), Pieces(name, typ, size)[i].ofs;
            ofs + width + 1 <= HEADER_SIZE && OctalField(Field(h, ofs, width + 1)) == Some(value)
  {
    OctalRoundTrip(value, width);
    OctalFieldOfText(value, width, width + 1);
    HeaderPiece(name, typ, size, i);
  }

  /** What else a header says: the permissions, the owner root with number 0, and the time of the last change. */
  lemma HeaderFields(name: seq<Octet>, typ: Octet, size: int)
    requires IsInt(size)
    ensures var h := Header(name, typ, size);
            && OctalField(h[100..108]) == Some(if typ == 48 then 420 else 493)
            && h[108..116] == h[116..124] == [48, 48, 48, 48, 48, 48, 48, 0]
            && OctalField(h[136..148]) == Some(1136102400)
            && h[265..270] == h[297..302] == [114, 111, 111, 116, 0]
  {
    hide Header, OctalField, OctalText;
    Powers();
    NumberPiece(name, typ, size, 1, Mode(typ), 7);
    NumberPiece(name, typ, size, 5, MTIME_VALUE, 11);
    HeaderPiece(name, typ, size, 2);
    HeaderPiece(name, typ, size, 3);
    HeaderPiece(name, typ, size, 9);
    HeaderPiece(name, typ, size, 10);
  }

  /** The headers that are accepted, and what is read from them. */
  lemma ParseAccepts(h: seq<Octet>)
    requires |h| == HEADER_SIZE
    ensures Parse(h).Entry? <==>
              && h[257..265] == [117, 115, 116, 97, 114, 0, 48, 48]
              && OctalField(h[148..156]) == Some(Total(h[..148]) + 8 * 32 + Total(h[156..]))
              && h[99] == 0 && h[345] == 0
              && (h[156] == 53 || (h[156] == 48 && OctalField(h[124..136]).Some? && OctalField(h[124..136]).value < 0x8000_0000))
    ensures Parse(h).Eof? <==> forall i :: 0 <= i < HEADER_SIZE ==> h[i] == 0
    ensures Parse(h).Entry? ==> StopsWith(h[..100], Parse(h).name) && Parse(h).typ == h[156]
    ensures Parse(h).Entry? && h[156] == 48 ==> Some(Parse(h).size) == OctalField(h[124..136])
    ensures Parse(h).Entry? && h[156] == 53 ==> Parse(h).size == 0
  {
    hide OctalField, Sum, Strip, CString, Total;
    SumIs(h);
    assert h[257..265] == Field(h, MAGIC, 6) + [h[VERSION], h[VERSION + 1]];
    assert h[257..265] == [117, 115, 116, 97, 114, 0, 48, 48] <==>
           Field(h, MAGIC, 6) == USTAR + [0] && h[VERSION] == ZERO && h[VERSION + 1] == ZERO by {
      assert Field(h, MAGIC, 6) == h[257..265][..6];
    }
    assert Field(h, NAME, NAME_SIZE) == h[..100];
    StopsWithStrip(h[..100]);
  }

  /** r is the text up to the first null byte, less its chain of dangerous prefixes, or "." if that names nothing. */
  ghost predicate StopsWith(field: seq<Octet>, r: seq<Octet>) {
    exists n: nat, k: nat {:trigger StopsAt(field[..n], k)} :: n <= |field| && EndsAt(field, n) && StopsAt(field[..n], k) &&
      r == if k == n || field[k..n] == [DOT, DOT] then [DOT] else field[k..n]
  }

  ghost predicate EndsAt(field: seq<Octet>, n: nat) {
    n <= |field| && 0 !in field[..n] && (n < |field| ==> field[n] == 0)
  }

  lemma {:induction false} StripStops(s: seq<Octet>, j: nat) returns (k: nat)
    requires j <= |s| && Prefixes(s, j) && forall i :: 0 <= i < j && Prefixes(s, i) ==> Antisocial(s[i..])
    ensures StopsAt(s, k) && Strip(s[j..]) == if k == |s| || s[k..] == [DOT, DOT] then [DOT] else s[k..]
    decreases |s| - j
  {
    hide Prefixes, Antisocial;
    HasSlash(s[j..]);
    if Antisocial(s[j..]) {
      var i := IndexOf(s[j..], SLASH);
      OnePrefix(s, j, i);
      k := StripStops(s, j + i + 1);
    } else {
      k := j;
    }
  }

  lemma HasSlash(s: seq<Octet>)
    ensures Antisocial(s) ==> SLASH in s
  {
  }

  lemma StopsWithStrip(field: seq<Octet>)
    ensures StopsWith(field, Strip(CString(field)))
  {
    var n := if 0 in field then IndexOf(field, 0) else |field|;
    assert field[..|field|] == field;
    var s := field[..n];
    assert EndsAt(field, n);
    assert s[0..] == s;
    NoPrefix(s);
    var k := StripStops(s, 0);
    assert s[k..] == field[k..n];
  }

  /**
   * Round trip: a header made for a name, type and size parses to the stripped name, the type, and the size, which is
   * 0 for a directory. A regular file's header parses exactly when the size is not negative.
   */
  lemma RoundTrip(fileName: seq<Octet>, typ: Octet, size: int)
    requires IsCString(fileName) && |Strip(fileName)| <= 99 && IsInt(size) && (typ == REGULAR || typ == DIRECTORY)
    ensures var r := Parse(Header(Strip(fileName), typ, size));
            if typ == REGULAR && size < 0 then r == Error(TooLarge)
            else r == Entry(Strip(fileName), typ, if typ == REGULAR then size else 0)
  {
    var name := Strip(fileName);
    StripSocial(fileName);
    StripIdempotent(fileName);
    HeaderName(name, typ, size);
    HeaderNameEnds(name, typ, size);
    HeaderMarks(name, typ, size);
    HeaderType(name, typ, size);
    HeaderSize(name, typ, size);
    ChksumRoundTrip(PutAll(Pieces(name, typ, size)));
    ParsedEntry(Header(name, typ, size), name, typ, Unsigned(size));
  }

  /** A header with these fields and a checksum that holds parses to its entry, unless the size is too large. */
  lemma ParsedEntry(h: seq<Octet>, name: seq<Octet>, typ: Octet, size: nat)
    requires |h| == HEADER_SIZE && (typ == REGULAR || typ == DIRECTORY)
    requires Field(h, MAGIC, 6) == USTAR + [0] && h[VERSION] == ZERO && h[VERSION + 1] == ZERO && h[PREFIX] == 0
    requires OctalField(Field(h, CHKSUM, CHKSUM_SIZE)) == Some(Sum(h, HEADER_SIZE))
    requires h[NAME + NAME_SIZE - 1] == 0 && CString(Field(h, NAME, NAME_SIZE)) == name && Strip(name) == name
    requires h[TYPEFLAG] == typ && OctalField(Field(h, SIZE, SIZE_SIZE)) == Some(size)
    ensures Parse(h) == if typ == REGULAR && size > INT_MAX then Error(TooLarge)
                        else Entry(name, typ, if typ == REGULAR then size else 0)
  {
    assert h[VERSION] != 0;
  }
}
