/** lib/ustar.c: composing and parsing the 512-byte headers of ustar archives. */
module Ustar {
  import opened Common

  const HEADER_SIZE: nat := 512
  const ULONG_MAX: nat := 0xFFFF_FFFF
  const INT_MAX: nat := 0x7FFF_FFFF

  const SLASH: Byte := 47
  const DOT: Byte := 46
  const ZERO: Byte := 48
  const SPACE: Byte := 32

  /** A C string: bytes without a null. */
  predicate IsString(s: seq<Byte>) { forall i: nat :: i < |s| ==> s[i] != 0 }

  // ---- names ----

  /** Starts with "/", "./" or "../". */
  predicate Antisocial(s: seq<Byte>) {
    || (|s| >= 1 && s[0] == SLASH)
    || (|s| >= 2 && s[0] == DOT && s[1] == SLASH)
    || (|s| >= 3 && s[0] == DOT && s[1] == DOT && s[2] == SLASH)
  }

  /** What follows the first slash. */
  function AfterSlash(s: seq<Byte>): (r: seq<Byte>)
    ensures SLASH in s ==> |r| < |s|
  {
    if s == [] then [] else if s[0] == SLASH then s[1..] else AfterSlash(s[1..])
  }

  function Stripped(s: seq<Byte>): seq<Byte>
    decreases |s|
  {
    if Antisocial(s) then Stripped(AfterSlash(s)) else s
  }

  predicate Nameless(s: seq<Byte>) { s == [] || s == [DOT, DOT] }

  function Strip(s: seq<Byte>): seq<Byte> {
    if Nameless(Stripped(s)) then [DOT] else Stripped(s)
  }

  lemma {:induction false} StrippedIs(s: seq<Byte>)
    ensures !Antisocial(Stripped(s)) && |Stripped(s)| <= |s|
    ensures IsString(s) ==> IsString(Stripped(s))
    decreases |s|
  {
    if Antisocial(s) {
      AfterSlashString(s);
      StrippedIs(AfterSlash(s));
    }
  }

  lemma {:induction false} AfterSlashString(s: seq<Byte>)
    ensures IsString(s) ==> IsString(AfterSlash(s))
  {
    if s != [] { AfterSlashString(s[1..]); }
  }

  /** Stripping leaves nothing to strip: the name does not start with "/", "./" or "../", is not empty and not "..". */
  lemma StripSafe(s: seq<Byte>)
    ensures !Antisocial(Strip(s)) && !Nameless(Strip(s)) && Strip(Strip(s)) == Strip(s)
    ensures IsString(s) ==> IsString(Strip(s))
  {
    StrippedIs(s);
  }

  /** strip_antisocial_prefixes. */
  method StripPrefixes(name: seq<Byte>) returns (r: seq<Byte>)
    ensures r == Strip(name)
  {
    r := name;
    while Antisocial(r)
      invariant Stripped(r) == Stripped(name)
      decreases |r|
    {
      r := SkipPastSlash(r);
    }
    if r == [] || r == [DOT, DOT] {
      r := [DOT];
    }
  }

  /** strchr (s, '/') + 1. */
  method SkipPastSlash(s: seq<Byte>) returns (r: seq<Byte>)
    requires SLASH in s
    ensures r == AfterSlash(s)
  {
    var i := 0;
    assert s[0..] == s;
    while s[i] != SLASH
      invariant i < |s| && SLASH in s[i..] && AfterSlash(s[i..]) == AfterSlash(s)
      decreases |s| - i
    {
      assert s[i..] == [s[i]] + s[i + 1..];
      i := i + 1;
    }
    r := s[i + 1..];
    assert s[i..][1..] == s[i + 1..];
  }

  // ---- where a name leads ----

  type Name = seq<Byte>

  function BeforeSlash(s: Name): Name { if s == [] || s[0] == SLASH then [] else [s[0]] + BeforeSlash(s[1..]) }

  /** The parts of a name between slashes. */
  function Components(s: Name): (r: seq<Name>)
    ensures r != []
    decreases |s|
  {
    if SLASH in s then [BeforeSlash(s)] + Components(AfterSlash(s)) else [s]
  }

  function Up(): Name { [DOT, DOT] }

  /** The directory reached from the directory `pos`, given by its path from the root, over one component. */
  function Entered(pos: seq<Name>, c: Name): seq<Name> {
    if c == [] || c == [DOT] then pos
    else if c == Up() then (if pos == [] then [] else pos[..|pos| - 1])
    else pos + [c]
  }

  function Walk(pos: seq<Name>, cs: seq<Name>): seq<Name> {
    if cs == [] then pos else Entered(Walk(pos, cs[..|cs| - 1]), cs[|cs| - 1])
  }

  /** On the way from `dir` along `cs` nothing outside `dir` is reached. */
  ghost predicate Inside(dir: seq<Name>, cs: seq<Name>) {
    forall k: nat :: k <= |cs| ==> dir <= Walk(dir, cs[..k])
  }

  /** How many more names than ".." there are. */
  function Depth(cs: seq<Name>): int {
    if cs == [] then 0
    else
      var c := cs[|cs| - 1];
      Depth(cs[..|cs| - 1]) + if c == [] || c == [DOT] then 0 else if c == Up() then -1 else 1
  }

  ghost predicate NeverAbove(cs: seq<Name>) {
    forall k: nat :: k <= |cs| ==> Depth(cs[..k]) >= 0
  }

  lemma PrefixNeverAbove(cs: seq<Name>, n: nat)
    requires n <= |cs| && NeverAbove(cs)
    ensures NeverAbove(cs[..n]) && Depth(cs[..n]) >= 0
  {
    forall k: nat | k <= n ensures Depth(cs[..n][..k]) >= 0 { assert cs[..n][..k] == cs[..k]; }
  }

  lemma {:induction false} WalkDepth(dir: seq<Name>, cs: seq<Name>)
    requires NeverAbove(cs)
    ensures dir <= Walk(dir, cs) && |Walk(dir, cs)| == |dir| + Depth(cs)
    decreases |cs|
  {
    if cs != [] {
      PrefixNeverAbove(cs, |cs| - 1);
      WalkDepth(dir, cs[..|cs| - 1]);
      assert cs[..|cs|] == cs;
    }
  }

  lemma {:induction false} InsideDepth(dir: seq<Name>, cs: seq<Name>)
    requires dir != [] && Inside(dir, cs)
    ensures NeverAbove(cs)
    decreases |cs|
  {
    if cs != [] {
      var pre := cs[..|cs| - 1];
      assert forall k: nat :: k <= |pre| ==> pre[..k] == cs[..k];
      InsideDepth(dir, pre);
      assert pre[..|pre|] == pre && cs[..|cs|] == cs;
      WalkDepth(dir, pre);
      assert dir <= Walk(dir, cs[..|cs|]);
      forall k: nat | k <= |cs| ensures Depth(cs[..k]) >= 0 {
        if k < |cs| { assert cs[..k] == pre[..k]; }
      }
    }
  }

  /** A name leads nowhere outside the directory it is taken from, unless that is the root, exactly when no beginning
      of it has more ".." than names. */
  lemma InsideExactly(dir: seq<Name>, cs: seq<Name>)
    requires dir != []
    ensures Inside(dir, cs) <==> NeverAbove(cs)
  {
    if NeverAbove(cs) {
      forall k: nat | k <= |cs| ensures dir <= Walk(dir, cs[..k]) {
        PrefixNeverAbove(cs, k);
        WalkDepth(dir, cs[..k]);
      }
    }
    if Inside(dir, cs) { InsideDepth(dir, cs); }
  }

  lemma {:induction false} BeforeSlashIs(s: Name)
    ensures |BeforeSlash(s)| <= |s| && BeforeSlash(s) == s[..|BeforeSlash(s)|]
    ensures |BeforeSlash(s)| < |s| ==> s[|BeforeSlash(s)|] == SLASH
    ensures SLASH in s ==> |BeforeSlash(s)| < |s|
  {
    if s != [] && s[0] != SLASH {
      BeforeSlashIs(s[1..]);
      var n := |BeforeSlash(s[1..])|;
      assert s[..n + 1] == [s[0]] + s[1..][..n];
    }
  }

  /** A stripped name never starts by going up. */
  lemma FirstIsNotUp(s: Name)
    ensures Components(Strip(s))[0] != Up()
  {
    StripSafe(s);
    BeforeSlashIs(Strip(s));
  }

  /** So it stays inside when ".." occurs nowhere else. */
  lemma OneUpAtMost(dir: seq<Name>, s: Name)
    requires forall i: nat :: 0 < i < |Components(Strip(s))| ==> Components(Strip(s))[i] != Up()
    ensures Inside(dir, Components(Strip(s)))
  {
    var cs := Components(Strip(s));
    FirstIsNotUp(s);
    forall k: nat | k <= |cs| ensures Depth(cs[..k]) >= 0 { NoUpDepth(cs[..k]); }
    forall k: nat | k <= |cs| ensures dir <= Walk(dir, cs[..k]) {
      PrefixNeverAbove(cs, k);
      WalkDepth(dir, cs[..k]);
    }
  }

  lemma {:induction false} NoUpDepth(cs: seq<Name>)
    requires Up() !in cs
    ensures Depth(cs) >= 0
  {
    if cs != [] { NoUpDepth(cs[..|cs| - 1]); }
  }

  /** "a/../../b" */
  function Climber(): Name { [97, SLASH, DOT, DOT, SLASH, DOT, DOT, SLASH, 98] }

  lemma {:induction false} SplitFirst(c: Name, rest: Name)
    requires SLASH !in c
    ensures BeforeSlash(c + [SLASH] + rest) == c && AfterSlash(c + [SLASH] + rest) == rest
  {
    var s := c + [SLASH] + rest;
    if c == [] {
      assert s[1..] == rest;
    } else {
      SplitFirst(c[1..], rest);
      assert s[1..] == c[1..] + [SLASH] + rest && s[0] == c[0];
    }
  }

  lemma ComponentsFirst(c: Name, rest: Name)
    requires SLASH !in c
    ensures Components(c + [SLASH] + rest) == [c] + Components(rest)
  {
    hide BeforeSlash, AfterSlash;
    SplitFirst(c, rest);
    assert (c + [SLASH] + rest)[|c|] == SLASH;
  }

  lemma ClimberParts()
    ensures Components(Climber()) == [[97]] + ([Up()] + ([Up()] + [[98]]))
  {
    hide Components;
    ComponentsFirst([97], Up() + [SLASH] + (Up() + [SLASH] + [98]));
    ComponentsFirst(Up(), Up() + [SLASH] + [98]);
    ComponentsFirst(Up(), [98]);
    OnePart([98]);
    assert Climber() == [97] + [SLASH] + (Up() + [SLASH] + (Up() + [SLASH] + [98]));
  }

  lemma OnePart(c: Name)
    requires SLASH !in c
    ensures Components(c) == [c]
  {
  }

  lemma DepthPush(cs: seq<Name>, c: Name)
    ensures Depth(cs + [c]) == Depth(cs) + if c == [] || c == [DOT] then 0 else if c == Up() then -1 else 1
  {
    assert (cs + [c])[..|cs|] == cs;
  }

  /** Stripping looks at the front only: this name passes unchanged and leads out of every directory but the root. */
  lemma ClimberLeads(dir: seq<Name>)
    requires dir != []
    ensures Strip(Climber()) == Climber() && !Inside(dir, Components(Climber()))
  {
    hide Components, Depth, Inside;
    ClimberParts();
    var cs := Components(Climber());
    DepthPush([], [97]);
    DepthPush([[97]], Up());
    DepthPush([[97]] + [Up()], Up());
    NoDepth();
    assert [] + [[97]] == [[97]];
    assert cs[..3] == [[97]] + [Up()] + [Up()];
    InsideExactly(dir, cs);
  }

  lemma NoDepth()
    ensures Depth([]) == 0
  {
  }

  // ---- octal numbers ----

  function Digits(v: nat): (r: seq<Byte>)
    ensures |r| > 0
  {
    if v < 8 then [ZERO + v] else Digits(v / 8) + [ZERO + v % 8]
  }

  function Zeros0(n: nat): seq<Byte> { seq(n, _ => ZERO) }

  /** "%0<width>o". */
  function Octal(v: nat, width: nat): seq<Byte> {
    if |Digits(v)| >= width then Digits(v) else Zeros0(width - |Digits(v)|) + Digits(v)
  }

  function Reverse(s: seq<Byte>): (r: seq<Byte>)
    ensures |r| == |s|
  {
    if s == [] then [] else Reverse(s[1..]) + [s[0]]
  }

  /** The digits of `value` from the lowest, one zero if there are none. */
  method CollectDigits(value: nat) returns (buf: seq<Byte>)
    ensures Reverse(buf) == Digits(value)
  {
    hide Reverse, Digits;
    NoDigits();
    buf := [];
    var v := value;
    while v > 0
      invariant value == 0 ==> buf == [] && v == 0
      invariant value > 0 ==> Digits(value) == HighDigits(v) + Reverse(buf)
      decreases v
    {
      ReverseAdd(buf, ZERO + v % 8);
      LowDigit(v, Reverse(buf));
      buf := buf + [ZERO + v % 8];
      v := v / 8;
    }
    if |buf| < 1 {
      ReverseAdd(buf, ZERO);
      buf := buf + [ZERO];
    }
  }

  /** format_integer for an unsigned octal conversion with the zero flag. */
  method FormatOctal(value: nat, width: nat) returns (out: seq<Byte>)
    ensures out == Octal(value, width)
  {
    hide Reverse, Digits;
    var buf := CollectDigits(value);
    var pad := if width > |buf| then width - |buf| else 0;
    out := Zeros0(pad);
    ghost var digits := Digits(value);
    OutputPad(digits);
    while buf != []
      invariant out + Reverse(buf) == Zeros0(pad) + digits
      decreases |buf|
    {
      var rest, x := buf[..|buf| - 1], buf[|buf| - 1];
      assert buf == rest + [x];
      ReverseAdd(rest, x);
      Shift(out, x, Reverse(rest));
      out, buf := out + [x], rest;
    }
    NoDigits();
  }

  lemma OutputPad(d: seq<Byte>)
    ensures Zeros0(0) + d == d
  {
  }

  lemma Shift(a: seq<Byte>, x: Byte, b: seq<Byte>)
    ensures a + ([x] + b) == (a + [x]) + b
  {
  }

  function HighDigits(v: nat): seq<Byte> { if v > 0 then Digits(v) else [] }

  lemma NoDigits()
    ensures Reverse([]) == [] && Digits(0) == [ZERO]
    ensures forall s: seq<Byte> :: Reverse(s) == [] ==> s == []
  {
  }

  lemma {:induction false} ReverseAdd(s: seq<Byte>, x: Byte)
    ensures Reverse(s + [x]) == [x] + Reverse(s)
  {
    if s != [] {
      assert (s + [x])[1..] == s[1..] + [x];
      ReverseAdd(s[1..], x);
    }
  }

  lemma LowDigit(v: nat, r: seq<Byte>)
    requires v > 0
    ensures HighDigits(v) + r == HighDigits(v / 8) + ([ZERO + v % 8] + r)
  {
    assert Digits(v) == HighDigits(v / 8) + [ZERO + v % 8];
  }

  predicate IsOctal(c: Byte) { ZERO <= c <= ZERO + 7 }

  /** parse_octal_field from place `k` on, with `value` read so far. */
  function ParseFrom(s: seq<Byte>, k: nat, value: nat): Option<nat>
    decreases |s| - k
  {
    if k >= |s| then None
    else if IsOctal(s[k]) then
      if value > ULONG_MAX / 8 then None else ParseFrom(s, k + 1, s[k] - ZERO + value * 8)
    else if (s[k] == SPACE || s[k] == 0) && k > 0 then Some(value)
    else None
  }

  /** parse_octal_field. */
  method ParseOctalField(s: seq<Byte>) returns (r: Option<nat>)
    ensures r == ParseFrom(s, 0, 0)
  {
    var value: nat, k: nat := 0, 0;
    while k < |s|
      invariant k <= |s| && ParseFrom(s, k, value) == ParseFrom(s, 0, 0)
      decreases |s| - k
    {
      var c := s[k];
      if ZERO <= c <= ZERO + 7 {
        if value > ULONG_MAX / 8 {
          return None;
        }
        value := c - ZERO + value * 8;
      } else if c == SPACE || c == 0 {
        return if k > 0 then Some(value) else None;
      } else {
        return None;
      }
      k := k + 1;
    }
    return None;
  }

  /** The number a string of octal digits stands for. */
  function Value(ds: seq<Byte>): int {
    if ds == [] then 0 else Value(ds[..|ds| - 1]) * 8 + (ds[|ds| - 1] - ZERO)
  }

  predicate AllOctal(ds: seq<Byte>) { forall i: nat :: i < |ds| ==> IsOctal(ds[i]) }

  lemma ValueStep(ds: seq<Byte>, k: nat)
    requires k < |ds|
    ensures Value(ds[..k + 1]) == Value(ds[..k]) * 8 + (ds[k] - ZERO)
  {
    assert ds[..k + 1][..k] == ds[..k];
  }

  lemma {:induction false} ValueOfPrefix(ds: seq<Byte>, k: nat)
    requires AllOctal(ds) && k <= |ds|
    ensures 0 <= Value(ds[..k]) && (k < |ds| ==> 8 * Value(ds[..k]) <= Value(ds)) && Value(ds[..k]) <= Value(ds)
    decreases |ds| - k, k
  {
    ValueNatural(ds, k);
    if k < |ds| {
      ValueOfPrefix(ds, k + 1);
      ValueStep(ds, k);
    } else {
      assert ds[..k] == ds;
    }
  }

  lemma {:induction false} ValueNatural(ds: seq<Byte>, k: nat)
    requires AllOctal(ds) && k <= |ds|
    ensures Value(ds[..k]) >= 0
    decreases k
  {
    if k > 0 {
      ValueNatural(ds, k - 1);
      ValueStep(ds, k - 1);
    }
  }

  /** A field of octal digits and a null reads as their value, if that fits a long. */
  lemma {:induction false} ParseDigits(ds: seq<Byte>, rest: seq<Byte>, k: nat)
    requires AllOctal(ds) && ds != [] && k <= |ds| && Value(ds) <= ULONG_MAX && rest != [] && rest[0] == 0
    ensures Value(ds[..k]) >= 0 && ParseFrom(ds + rest, k, Value(ds[..k])) == Some(Value(ds))
    decreases |ds| - k
  {
    ValueOfPrefix(ds, k);
    if k < |ds| {
      ValueStep(ds, k);
      ParseDigits(ds, rest, k + 1);
      assert (ds + rest)[k] == ds[k];
    } else {
      assert ds[..k] == ds && (ds + rest)[k] == 0;
    }
  }

  lemma {:induction false} DigitsValue(v: nat)
    ensures AllOctal(Digits(v)) && Value(Digits(v)) == v
  {
    if v < 8 {
      var none: seq<Byte> := [];
      assert Digits(v)[..0] == none;
    } else {
      DigitsValue(v / 8);
      assert Digits(v)[..|Digits(v)| - 1] == Digits(v / 8);
    }
  }

  lemma {:induction false} PaddedValue(n: nat, ds: seq<Byte>)
    requires AllOctal(ds)
    ensures AllOctal(Zeros0(n) + ds) && Value(Zeros0(n) + ds) == Value(ds)
  {
    var p := Zeros0(n) + ds;
    if ds != [] {
      PaddedValue(n, ds[..|ds| - 1]);
      assert p[..|p| - 1] == Zeros0(n) + ds[..|ds| - 1];
    } else if n > 0 {
      PaddedValue(n - 1, ds);
      assert p[..|p| - 1] == Zeros0(n - 1) + ds;
    }
  }

  function Pow8(w: nat): nat { if w == 0 then 1 else 8 * Pow8(w - 1) }

  lemma {:induction false} DigitsFit(v: nat, w: nat)
    requires v < Pow8(w) && w > 0
    ensures |Digits(v)| <= w
  {
    if v >= 8 { DigitsFit(v / 8, w - 1); }
  }

  /** A number printed into a field of its width, and the null after it, reads back. */
  lemma OctalReads(v: nat, w: nat, rest: seq<Byte>)
    requires v < Pow8(w) && w > 0 && v <= ULONG_MAX && rest != [] && rest[0] == 0
    ensures |Octal(v, w)| == w && ParseFrom(Octal(v, w) + rest, 0, 0) == Some(v)
  {
    hide ParseFrom, Value;
    DigitsFit(v, w);
    DigitsValue(v);
    PaddedValue(w - |Digits(v)|, Digits(v));
    assert Zeros0(0) + Digits(v) == Digits(v);
    ParseDigits(Octal(v, w), rest, 0);
    ValueNone(Octal(v, w)[..0]);
  }

  lemma ValueNone(ds: seq<Byte>)
    requires ds == []
    ensures Value(ds) == 0
  {
  }

  // ---- the checksum ----

  function Sum(s: seq<Byte>): nat { if s == [] then 0 else Sum(s[..|s| - 1]) + s[|s| - 1] }

  const CHKSUM: nat := 148
  const CHKSUM_END: nat := 156

  /** The sum of the bytes with the checksum field read as spaces. */
  function Checksum(h: seq<Byte>): nat
    requires |h| == HEADER_SIZE
  {
    Sum(h[..CHKSUM]) + 8 * SPACE + Sum(h[CHKSUM_END..])
  }

  /** The sum of the first `i` bytes, the checksum field read as spaces. */
  function SumTo(h: seq<Byte>, i: nat): nat
    requires i <= |h|
  {
    if i == 0 then 0 else SumTo(h, i - 1) + (if CHKSUM <= i - 1 < CHKSUM_END then SPACE else h[i - 1])
  }

  /** calculate_chksum. */
  method CalculateChksum(h: seq<Byte>) returns (sum: nat)
    requires |h| == HEADER_SIZE
    ensures sum == Checksum(h)
  {
    sum := 0;
    for i := 0 to HEADER_SIZE
      invariant sum == SumTo(h, i)
    {
      var inField := i >= CHKSUM && i < CHKSUM_END;
      sum := sum + if inField then SPACE else h[i];
    }
    SumsAgree(h, HEADER_SIZE);
    assert h[CHKSUM_END..HEADER_SIZE] == h[CHKSUM_END..];
  }

  lemma {:induction false} SumsAgree(h: seq<Byte>, i: nat)
    requires |h| == HEADER_SIZE && i <= |h|
    ensures SumTo(h, i) ==
      if i <= CHKSUM then Sum(h[..i])
      else if i <= CHKSUM_END then Sum(h[..CHKSUM]) + (i - CHKSUM) * SPACE
      else Sum(h[..CHKSUM]) + 8 * SPACE + Sum(h[CHKSUM_END..i])
  {
    if i > 0 {
      SumsAgree(h, i - 1);
      if i <= CHKSUM { assert h[..i][..i - 1] == h[..i - 1]; }
      if i > CHKSUM_END {
        assert h[CHKSUM_END..i][..i - 1 - CHKSUM_END] == h[CHKSUM_END..i - 1];
        SumNone(h[CHKSUM_END..CHKSUM_END]);
      }
    }
    assert h[CHKSUM_END..HEADER_SIZE] == h[CHKSUM_END..];
  }

  lemma SumNone(s: seq<Byte>)
    requires s == []
    ensures Sum(s) == 0
  {
  }

  lemma {:induction false} SumBound(s: seq<Byte>)
    ensures Sum(s) <= 255 * |s|
  {
    if s != [] { SumBound(s[..|s| - 1]); }
  }

  lemma ChecksumFits(h: seq<Byte>)
    requires |h| == HEADER_SIZE
    ensures Checksum(h) < 0x20_0000
  {
    hide Sum;
    SumBound(h[..CHKSUM]);
    SumBound(h[CHKSUM_END..]);
  }

  // ---- composing a header ----

  const REGULAR: Byte := 48
  const DIRECTORY: Byte := 53

  function Magic(): seq<Byte> { [117, 115, 116, 97, 114] }
  function Root(): seq<Byte> { [114, 111, 111, 116] }

  function Unsigned(size: int): int { if size < 0 then size + 0x1_0000_0000 else size }

  function Pad(s: seq<Byte>, i: nat): Byte { if i < |s| then s[i] else 0 }

  /** The header before the checksum is filled in, byte by byte. */
  function DraftByte(name: seq<Byte>, kind: Byte, size: nat, i: nat): Byte {
    if i < 100 then Pad(name, i)
    else if i < 108 then Pad(Octal(if kind == REGULAR then 420 else 493, 7), i - 100)
    else if i < 116 then Pad(Zeros0(7), i - 108)
    else if i < 124 then Pad(Zeros0(7), i - 116)
    else if i < 136 then Pad(Octal(size, 11), i - 124)
    else if i < 148 then Pad(Octal(1136102400, 11), i - 136)
    else if i < 156 then 0
    else if i == 156 then kind
    else if i < 257 then 0
    else if i < 263 then Pad(Magic(), i - 257)
    else if i < 265 then ZERO
    else if i < 297 then Pad(Root(), i - 265)
    else if i < 329 then Pad(Root(), i - 297)
    else 0
  }

  function Draft(name: seq<Byte>, kind: Byte, size: nat): (h: seq<Byte>)
    ensures |h| == HEADER_SIZE
  {
    seq(HEADER_SIZE, i requires 0 <= i < HEADER_SIZE => DraftByte(name, kind, size, i))
  }

  /** The checksum printed into its field. */
  function Summed(h: seq<Byte>): (r: seq<Byte>)
    requires |h| == HEADER_SIZE
    ensures |r| == HEADER_SIZE
  {
    seq(HEADER_SIZE, i requires 0 <= i < HEADER_SIZE && |h| == HEADER_SIZE => SummedByte(h, Octal(Checksum(h), 7), i))
  }

  function SummedByte(h: seq<Byte>, field: seq<Byte>, i: nat): Byte
    requires i < HEADER_SIZE == |h|
  {
    if CHKSUM <= i < CHKSUM_END - 1 then Pad(field, i - CHKSUM) else h[i]
  }

  /** ustar_make_header. */
  function Make(name: seq<Byte>, kind: Byte, size: int): Option<seq<Byte>>
    requires -0x8000_0000 <= size <= INT_MAX
  {
    if |Strip(name)| > 99 then None else Some(Summed(Draft(Strip(name), kind, Unsigned(size))))
  }

  // ---- parsing a header ----

  datatype Error = NotUstar | BadVersion | CorruptChksum | ChksumMismatch | NameTooLong | BadType | CorruptSize | TooLarge

  datatype Parsed = Eof | Bad(error: Error) | Entry(name: seq<Byte>, kind: Byte, size: nat)

  function CString(s: seq<Byte>): seq<Byte> {
    if s == [] || s[0] == 0 then [] else [s[0]] + CString(s[1..])
  }

  predicate AllZero(h: seq<Byte>) { forall i: nat :: i < |h| ==> h[i] == 0 }

  /** ustar_parse_header. */
  function Parse(h: seq<Byte>): Parsed
    requires |h| == HEADER_SIZE
  {
    if AllZero(h) then Eof
    else if h[257..263] != Magic() + [0] then Bad(NotUstar)
    else if h[263] != ZERO || h[264] != ZERO then Bad(BadVersion)
    else
      var chksum := ParseFrom(h[CHKSUM..CHKSUM_END], 0, 0);
      if chksum.None? then Bad(CorruptChksum)
      else if chksum.value != Checksum(h) then Bad(ChksumMismatch)
      else if h[99] != 0 || h[345] != 0 then Bad(NameTooLong)
      else if h[156] != REGULAR && h[156] != DIRECTORY then Bad(BadType)
      else if h[156] == DIRECTORY then Entry(Strip(CString(h[..100])), DIRECTORY, 0)
      else
        var size := ParseFrom(h[124..136], 0, 0);
        if size.None? then Bad(CorruptSize)
        else if size.value > INT_MAX then Bad(TooLarge)
        else Entry(Strip(CString(h[..100])), REGULAR, size.value)
  }

  // ---- the round trip ----

  lemma {:induction false} CStringOf(s: seq<Byte>, n: nat)
    requires IsString(s) && n > 0
    ensures CString(s + seq(n, _ => 0)) == s
  {
    var t := s + seq(n, _ => 0);
    if s != [] {
      assert t[1..] == s[1..] + seq(n, _ => 0);
      CStringOf(s[1..], n);
    }
  }

  lemma Pow8s()
    ensures Pow8(7) == 0x20_0000 && Pow8(11) == 0x2_0000_0000
  {
    assert Pow8(3) == 512;
    assert Pow8(5) == 64 * Pow8(3);
    assert Pow8(7) == 64 * Pow8(5);
    assert Pow8(9) == 64 * Pow8(7);
    assert Pow8(11) == 64 * Pow8(9);
  }

  /** The fields that parsing looks at, apart from the checksum. */
  lemma SummedFields(name: seq<Byte>, kind: Byte, size: nat)
    requires |name| <= 99 && IsString(name) && size <= ULONG_MAX
    ensures var h := Summed(Draft(name, kind, size));
      && h[257..263] == Magic() + [0] && h[263] == ZERO && h[264] == ZERO && h[99] == 0 && h[345] == 0 && h[156] == kind
      && h[..100] == name + seq(100 - |name|, _ => 0) && h[124..136] == Octal(size, 11) + [0]
  {
    hide Checksum, Octal, Digits;
    OctalLength(size);
    var h := Summed(Draft(name, kind, size));
    assert h[257..263] == Magic() + [0];
    assert h[..100] == name + seq(100 - |name|, _ => 0);
    assert h[124..136] == Octal(size, 11) + [0];
  }

  lemma OctalLength(size: nat)
    requires size <= ULONG_MAX
    ensures |Octal(size, 11)| == 11 && ParseFrom(Octal(size, 11) + [0], 0, 0) == Some(size)
  {
    Pow8s();
    OctalReads(size, 11, [0]);
  }

  /** The checksum field reads as the checksum, which filling the field in does not change. */
  lemma SummedChecksum(h: seq<Byte>)
    requires |h| == HEADER_SIZE && h[CHKSUM_END - 1] == 0
    ensures ParseFrom(Summed(h)[CHKSUM..CHKSUM_END], 0, 0) == Some(Checksum(h)) && Checksum(Summed(h)) == Checksum(h)
  {
    hide Octal, Digits, Sum, Summed;
    var c := Checksum(h);
    ChecksumFits(h);
    Pow8s();
    OctalReads(c, 7, [0]);
    SummedSlices(h, Octal(c, 7));
  }

  lemma SummedSlices(h: seq<Byte>, field: seq<Byte>)
    requires |h| == HEADER_SIZE && h[CHKSUM_END - 1] == 0 && field == Octal(Checksum(h), 7) && |field| == 7
    ensures Summed(h)[CHKSUM..CHKSUM_END] == field + [0]
    ensures Summed(h)[..CHKSUM] == h[..CHKSUM] && Summed(h)[CHKSUM_END..] == h[CHKSUM_END..]
  {
    hide Octal, Checksum;
    var r: seq<Byte> := Summed(h);
    assert forall i: nat :: i < HEADER_SIZE ==> r[i] == SummedByte(h, field, i);
    assert r[CHKSUM..CHKSUM_END] == field + [0];
    assert r[..CHKSUM] == h[..CHKSUM];
    assert r[CHKSUM_END..] == h[CHKSUM_END..];
  }

  /** Parsing undoes composing: the stripped name, the type, and the size of a regular file come back, a directory's
      size reads as 0, and only a regular file of negative size is refused. */
  lemma RoundTrip(name: seq<Byte>, kind: Byte, size: int)
    requires IsString(name) && (kind == REGULAR || kind == DIRECTORY) && -0x8000_0000 <= size <= INT_MAX
    ensures Make(name, kind, size).None? <==> |Strip(name)| > 99
    ensures Make(name, kind, size).Some? ==>
      Parse(Make(name, kind, size).value) ==
      if kind == DIRECTORY then Entry(Strip(name), DIRECTORY, 0)
      else if size >= 0 then Entry(Strip(name), REGULAR, size)
      else Bad(TooLarge)
  {
    StripSafe(name);
    if |Strip(name)| <= 99 {
      hide Summed, Draft, Checksum, ParseFrom, Octal, Strip, CString, Digits, Parse;
      var n, u := Strip(name), Unsigned(size);
      var d := Draft(n, kind, u);
      SummedFields(n, kind, u);
      DraftGap(n, kind, u);
      SummedChecksum(d);
      OctalLength(u);
      CStringOf(n, 100 - |n|);
      ParseFields(Summed(d), n, kind, u);
    }
  }

  /** Parsing a header whose fields are in order. */
  lemma ParseFields(h: seq<Byte>, name: seq<Byte>, kind: Byte, size: nat)
    requires |h| == HEADER_SIZE && h[257..263] == Magic() + [0] && h[263] == ZERO && h[264] == ZERO && h[99] == 0 && h[345] == 0
    requires (kind == REGULAR || kind == DIRECTORY) && h[156] == kind && CString(h[..100]) == name && Strip(name) == name
    requires ParseFrom(h[124..136], 0, 0) == Some(size) && ParseFrom(h[CHKSUM..CHKSUM_END], 0, 0) == Some(Checksum(h))
    ensures Parse(h) ==
      if kind == DIRECTORY then Entry(name, DIRECTORY, 0)
      else if size <= INT_MAX then Entry(name, REGULAR, size)
      else Bad(TooLarge)
  {
    hide Checksum, ParseFrom, Strip, CString;
  }

  lemma DraftGap(name: seq<Byte>, kind: Byte, size: nat)
    ensures Draft(name, kind, size)[CHKSUM_END - 1] == 0
  {
  }

  /** No header, wherever it comes from, yields a name that is empty or ".." or starts with "/", "./" or "../", or a
      size that is not an int. The name stays inside exactly when no beginning of it has more ".." than names. */
  lemma ParsedSafe(h: seq<Byte>, dir: seq<Name>)
    requires |h| == HEADER_SIZE && Parse(h).Entry? && dir != []
    ensures !Antisocial(Parse(h).name) && !Nameless(Parse(h).name) && Parse(h).size <= INT_MAX
    ensures Components(Parse(h).name)[0] != Up()
    ensures Inside(dir, Components(Parse(h).name)) <==> NeverAbove(Components(Parse(h).name))
  {
    hide Strip, Checksum, ParseFrom, CString, Components, Inside, NeverAbove;
    StripSafe(CString(h[..100]));
    FirstIsNotUp(CString(h[..100]));
    InsideExactly(dir, Components(Parse(h).name));
  }

  /** A header ustar_make_header composes itself gives such a name back. */
  lemma ClimberParsed(dir: seq<Name>) returns (h: seq<Byte>)
    requires dir != []
    ensures Make(Climber(), REGULAR, 0) == Some(h) && Parse(h).Entry? && !Inside(dir, Components(Parse(h).name))
  {
    hide Parse, Make, Components, Inside;
    ClimberLeads(dir);
    RoundTrip(Climber(), REGULAR, 0);
    h := Make(Climber(), REGULAR, 0).value;
  }

  lemma {:induction false} SumChange(s: seq<Byte>, i: nat, b: Byte)
    requires i < |s|
    ensures Sum(s[i := b]) == Sum(s) - s[i] + b
  {
    var n := |s| - 1;
    if i < n {
      SumChange(s[..n], i, b);
      assert s[i := b][..n] == s[..n][i := b];
    } else {
      assert s[i := b][..n] == s[..n];
    }
  }

  /** Changing any one byte outside the checksum field makes an acceptable header unacceptable. */
  lemma OneByteDetected(h: seq<Byte>, i: nat, b: Byte)
    requires |h| == HEADER_SIZE && Parse(h).Entry? && i < HEADER_SIZE && !(CHKSUM <= i < CHKSUM_END) && b != h[i]
    ensures Parse(h[i := b]).Bad?
  {
    var t := h[i := b];
    assert Checksum(t) == Checksum(h) - h[i] + b by {
      if i < CHKSUM {
        SumChange(h[..CHKSUM], i, b);
        assert t[..CHKSUM] == h[..CHKSUM][i := b] && t[CHKSUM_END..] == h[CHKSUM_END..];
      } else {
        SumChange(h[CHKSUM_END..], i - CHKSUM_END, b);
        assert t[..CHKSUM] == h[..CHKSUM] && t[CHKSUM_END..] == h[CHKSUM_END..][i - CHKSUM_END := b];
      }
    }
    assert t[CHKSUM..CHKSUM_END] == h[CHKSUM..CHKSUM_END];
    assert h[263] == ZERO && h[264] == ZERO;
    assert t[263] != 0 || t[264] != 0;
  }

  // ---- filling the buffer ----

  /** strlcpy or snprintf into the `n`-byte field at `ofs`: the string and a null. */
  method PutField(h: array<Byte>, ofs: nat, n: nat, text: seq<Byte>)
    requires ofs + n <= h.Length && |text| < n
    modifies h
    ensures forall i: nat :: i < h.Length ==>
      h[i] == if ofs <= i < ofs + |text| then text[i - ofs] else if i == ofs + |text| then 0 else old(h[i])
  {
    for k := 0 to |text|
      invariant forall i: nat :: i < h.Length ==> h[i] == if ofs <= i < ofs + k then text[i - ofs] else old(h[i])
    {
      h[ofs + k] := text[k];
    }
    h[ofs + |text|] := 0;
  }

  /** The buffer agrees with the draft header before `k` and is still clear from there on. */
  ghost predicate FilledTo(h: seq<Byte>, name: seq<Byte>, kind: Byte, size: nat, k: nat) {
    |h| == HEADER_SIZE && forall i: nat :: i < HEADER_SIZE ==> h[i] == if i < k then DraftByte(name, kind, size, i) else 0
  }

  lemma FieldLengths(kind: Byte, size: nat)
    requires size <= ULONG_MAX
    ensures |Octal(if kind == REGULAR then 420 else 493, 7)| == 7 && |Octal(size, 11)| == 11
    ensures |Octal(1136102400, 11)| == 11 && |Zeros0(7)| == 7 && |Magic()| == 5 && |Root()| == 4
  {
    hide Octal, Digits, ParseFrom;
    Pow8s();
    OctalReads(if kind == REGULAR then 420 else 493, 7, [0]);
    OctalReads(size, 11, [0]);
    OctalReads(1136102400, 11, [0]);
  }

  /** The header without its checksum, up to the modification time. */
  method FillFront(h: array<Byte>, name: seq<Byte>, kind: Byte, size: nat)
    requires h.Length == HEADER_SIZE && |name| <= 99 && size <= ULONG_MAX && FilledTo(h[..], name, kind, size, 0)
    modifies h
    ensures FilledTo(h[..], name, kind, size, 156)
  {
    hide Octal, Digits;
    FieldLengths(kind, size);
    PutField(h, 0, 100, name);
    assert FilledTo(h[..], name, kind, size, 100);
    var mode := FormatOctal(if kind == REGULAR then 420 else 493, 7);
    PutField(h, 100, 8, mode);
    assert FilledTo(h[..], name, kind, size, 108);
    PutField(h, 108, 8, Zeros0(7));
    assert FilledTo(h[..], name, kind, size, 116);
    PutField(h, 116, 8, Zeros0(7));
    assert FilledTo(h[..], name, kind, size, 124);
    var octal := FormatOctal(size, 11);
    PutField(h, 124, 12, octal);
    assert FilledTo(h[..], name, kind, size, 136);
    var mtime := FormatOctal(1136102400, 11);
    PutField(h, 136, 12, mtime);
  }

  /** And from the type on. */
  method FillBack(h: array<Byte>, name: seq<Byte>, kind: Byte, size: nat)
    requires h.Length == HEADER_SIZE && FilledTo(h[..], name, kind, size, 156)
    modifies h
    ensures h[..] == Draft(name, kind, size)
  {
    hide Octal, Digits;
    h[156] := kind;
    assert FilledTo(h[..], name, kind, size, 257);
    PutField(h, 257, 6, Magic());
    assert FilledTo(h[..], name, kind, size, 263);
    h[264] := ZERO;
    h[263] := ZERO;
    assert FilledTo(h[..], name, kind, size, 265);
    PutField(h, 297, 32, Root());
    PutField(h, 265, 32, Root());
    assert FilledTo(h[..], name, kind, size, HEADER_SIZE);
  }

  /** ustar_make_header. */
  method MakeHeader(fileName: seq<Byte>, kind: Byte, size: int, h: array<Byte>) returns (ok: bool)
    requires h.Length == HEADER_SIZE && (kind == REGULAR || kind == DIRECTORY) && -0x8000_0000 <= size <= INT_MAX
    modifies h
    ensures Make(fileName, kind, size) == if ok then Some(h[..]) else None
    ensures !ok ==> h[..] == old(h[..])
  {
    hide Octal, Digits, Strip, Draft, Checksum;
    var name := StripPrefixes(fileName);
    if |name| > 99 {
      return false;
    }
    for i := 0 to HEADER_SIZE
      invariant forall j: nat :: j < i ==> h[j] == 0
    {
      h[i] := 0;
    }
    FillFront(h, name, kind, Unsigned(size));
    FillBack(h, name, kind, Unsigned(size));
    ghost var draft := h[..];
    DraftGap(name, kind, Unsigned(size));
    var sum := CalculateChksum(h[..]);
    var chksum := FormatOctal(sum, 7);
    ChksumLength(draft);
    PutField(h, CHKSUM, 8, chksum);
    assert h[..] == Summed(draft);
    ok := true;
  }

  lemma ChksumLength(h: seq<Byte>)
    requires |h| == HEADER_SIZE
    ensures |Octal(Checksum(h), 7)| == 7
  {
    hide Octal, Checksum, ParseFrom, Digits;
    ChecksumFits(h);
    Pow8s();
    OctalReads(Checksum(h), 7, [0]);
  }

  /** ustar_parse_header. */
  method ParseHeader(h: seq<Byte>) returns (r: Parsed)
    requires |h| == HEADER_SIZE
    ensures r == Parse(h)
  {
    hide Octal, Digits, Strip, Checksum, CString, ParseFrom;
    var zeros := IsAllZeros(h);
    if zeros {
      return Eof;
    }
    if h[257..263] != Magic() + [0] {
      return Bad(NotUstar);
    } else if h[263] != ZERO || h[264] != ZERO {
      return Bad(BadVersion);
    }
    var chksum := ParseOctalField(h[CHKSUM..CHKSUM_END]);
    if chksum.None? {
      return Bad(CorruptChksum);
    }
    var sum := CalculateChksum(h);
    if chksum.value != sum {
      return Bad(ChksumMismatch);
    } else if h[99] != 0 || h[345] != 0 {
      return Bad(NameTooLong);
    } else if h[156] != REGULAR && h[156] != DIRECTORY {
      return Bad(BadType);
    }
    var sizeField := Some(0);
    if h[156] == REGULAR {
      sizeField := ParseOctalField(h[124..136]);
      if sizeField.None? {
        return Bad(CorruptSize);
      } else if sizeField.value > INT_MAX {
        return Bad(TooLarge);
      }
    }
    var name := StripPrefixes(CString(h[..100]));
    return Entry(name, h[156], sizeField.value);
  }

  /** is_all_zeros. */
  method IsAllZeros(h: seq<Byte>) returns (r: bool)
    ensures r == AllZero(h)
  {
    for i := 0 to |h|
      invariant forall j: nat :: j < i ==> h[j] == 0
    {
      if h[i] != 0 {
        return false;
      }
    }
    return true;
  }
}
