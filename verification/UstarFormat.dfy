/**
 What lib/ustar.c makes of names, fields and whole headers, said without the code's own steps: which
 part of a name is kept, which fields are numbers, what each byte of a header is, and which headers
 are accepted.
 */
module UstarFormats {
  import opened Common
  import opened Ustar

  // ---- names ----

  predicate Droppable(c: Name) { c == [] || c == [DOT] || c == Up() }

  lemma FirstComponent(s: Name)
    requires SLASH in s
    ensures Components(s) == [BeforeSlash(s)] + Components(AfterSlash(s))
    ensures Antisocial(s) <==> Droppable(BeforeSlash(s))
  {
    BeforeSlashIs(s);
    var b := BeforeSlash(s);
    assert s[|b|] == SLASH;
    assert forall i: nat :: i < |b| ==> b[i] == s[i];
    NoSlashBefore(s);
  }

  lemma {:induction false} NoSlashBefore(s: Name)
    ensures SLASH !in BeforeSlash(s)
  {
    if s != [] && s[0] != SLASH { NoSlashBefore(s[1..]); }
  }

  lemma AntisocialHasSlash(s: Name)
    requires Antisocial(s)
    ensures SLASH in s
  {
    assert s[0] == SLASH || s[1] == SLASH || s[2] == SLASH;
  }

  /** Stripping takes whole components off the front, each of them empty, "." or "..", until what is left does not
      start with one and a slash; the result is what is left, or "." when that is empty or "..". */
  lemma {:induction false} StripExactly(s: Name) returns (pre: seq<Name>, rest: Name)
    ensures Components(s) == pre + Components(rest) && (forall c :: c in pre ==> Droppable(c)) && !Antisocial(rest)
    ensures Strip(s) == if rest == [] || rest == Up() then [DOT] else rest
    decreases |s|
  {
    if Antisocial(s) {
      AntisocialHasSlash(s);
      FirstComponent(s);
      pre, rest := StripExactly(AfterSlash(s));
      pre := [BeforeSlash(s)] + pre;
    } else {
      pre, rest := [], s;
    }
  }

  /** What is not antisocial starts with an ordinary component, or is a single one. */
  lemma RestStarts(rest: Name)
    requires !Antisocial(rest)
    ensures |Components(rest)| > 1 ==> !Droppable(Components(rest)[0])
    ensures |Components(rest)| == 1 ==> Components(rest) == [rest]
  {
    if SLASH in rest { FirstComponent(rest); }
  }

  /** If a name has an ordinary component, everything from the first one on is kept, and nothing before it. */
  lemma KeepsOrdinary(s: Name, m: nat)
    requires m < |Components(s)| && !Droppable(Components(s)[m])
    requires forall j: nat :: j < m ==> Droppable(Components(s)[j])
    ensures Components(Strip(s)) == Components(s)[m..] && (m == 0 ==> Strip(s) == s)
  {
    var cs := Components(s);
    var pre, rest := StripExactly(s);
    RestStarts(rest);
    var rs := Components(rest);
    assert forall j: nat :: j < |pre| ==> cs[j] == pre[j] && pre[j] in pre;
    assert |pre| <= m;
    assert rs[m - |pre|] == cs[m] && rs[0] == cs[|pre|];
    assert |rs| == |cs| - |pre|;
    assert |pre| == m && rs[0] == cs[m];
    assert cs[m..] == rs;
    NotNameless(rest);
    if m == 0 { OrdinaryStart(s); }
  }

  lemma NotNameless(rest: Name)
    requires !Droppable(Components(rest)[0])
    ensures rest != [] && rest != Up()
  {
  }

  lemma OrdinaryStart(s: Name)
    requires !Droppable(Components(s)[0])
    ensures Strip(s) == s
  {
    NotNameless(s);
    if Antisocial(s) {
      AntisocialHasSlash(s);
      FirstComponent(s);
    }
  }

  // ---- fields ----

  /** `n` octal digits, at least one, and then a space or a null. */
  ghost predicate FieldOf(s: seq<Byte>, n: nat) {
    0 < n < |s| && AllOctal(s[..n]) && (s[n] == SPACE || s[n] == 0)
  }

  lemma {:induction false} ParseFromIs(s: seq<Byte>, k: nat, n: nat)
    requires FieldOf(s, n) && k <= n
    ensures Value(s[..k]) >= 0
    ensures ParseFrom(s, k, Value(s[..k])) == if Value(s[..n]) <= ULONG_MAX || k == n then Some(Value(s[..n])) else None
    decreases n - k
  {
    assert s[..n][..k] == s[..k];
    ValueOfPrefix(s[..n], k);
    if k < n {
      assert IsOctal(s[..n][k]);
      ValueStep(s, k);
      assert s[..n][..k + 1] == s[..k + 1];
      ValueOfPrefix(s[..n], k + 1);
      ParseFromIs(s, k + 1, n);
    }
  }

  lemma {:induction false} ParseFromEnds(s: seq<Byte>, k: nat, v: nat) returns (n: nat)
    requires AllOctal(s[..if k <= |s| then k else |s|]) && k <= |s|
    ensures ParseFrom(s, k, v).Some? ==> FieldOf(s, n)
    decreases |s| - k
  {
    n := k;
    if k < |s| && IsOctal(s[k]) {
      assert forall i: nat :: i < k ==> s[..k + 1][i] == s[..k][i];
      assert AllOctal(s[..k + 1]);
      n := ParseFromEnds(s, k + 1, s[k] - ZERO + v * 8);
    }
  }

  /** A field is accepted exactly when it is octal digits, at least one, then a space or a null, and the number they
      stand for fits 32 bits; and that number is the result. */
  lemma FieldExactly(s: seq<Byte>, v: nat)
    ensures ParseFrom(s, 0, 0) == Some(v) <==> exists n: nat :: FieldOf(s, n) && Value(s[..n]) == v <= 0xFFFF_FFFF
  {
    assert s[..0] == [];
    ValueNone(s[..0]);
    var m := ParseFromEnds(s, 0, 0);
    if ParseFrom(s, 0, 0) == Some(v) { ParseFromIs(s, 0, m); }
    if n: nat :| FieldOf(s, n) && Value(s[..n]) == v <= 0xFFFF_FFFF { ParseFromIs(s, 0, n); }
  }

  // ---- the checksum ----

  lemma {:induction false} SumZeros(s: seq<Byte>)
    requires AllZero(s)
    ensures Sum(s) == 0
  {
    if s != [] { SumZeros(s[..|s| - 1]); }
  }

  /** The checksum of a clear header is that of eight spaces; a byte outside the field counts as itself, and one
      inside not at all. */
  lemma ChecksumExactly(h: seq<Byte>, i: nat, b: Byte)
    requires |h| == 512 && i < 512
    ensures AllZero(h) ==> Checksum(h) == 256
    ensures Checksum(h[i := b]) == Checksum(h) + if 148 <= i < 156 then 0 else b - h[i]
  {
    hide Sum;
    if AllZero(h) {
      SumZeros(h[..148]);
      SumZeros(h[156..]);
    }
    var t := h[i := b];
    if i < 148 {
      SumChange(h[..148], i, b);
      assert t[..148] == h[..148][i := b] && t[156..] == h[156..];
    } else if i < 156 {
      assert t[..148] == h[..148] && t[156..] == h[156..];
    } else {
      SumChange(h[156..], i - 156, b);
      assert t[..148] == h[..148] && t[156..] == h[156..][i - 156 := b];
    }
  }

  // ---- composed headers ----

  /** The bytes from `ofs` on are the octal digits of `v` in a field of `n` bytes that ends in a null. */
  ghost predicate NumberAt(h: seq<Byte>, ofs: nat, n: nat, v: nat) {
    && ofs + n <= |h| && n > 0 && AllOctal(h[ofs..ofs + n - 1]) && Value(h[ofs..ofs + n - 1]) == v && h[ofs + n - 1] == 0
  }

  ghost predicate TextAt(h: seq<Byte>, ofs: nat, n: nat, text: seq<Byte>) {
    && ofs + n <= |h| && |text| <= n
    && (forall i: nat :: i < n ==> h[ofs + i] == if i < |text| then text[i] else 0)
  }

  lemma OctalNumber(v: nat, w: nat)
    requires v < Pow8(w) && w > 0
    ensures |Octal(v, w)| == w && AllOctal(Octal(v, w)) && Value(Octal(v, w)) == v
  {
    hide Value;
    DigitsFit(v, w);
    DigitsValue(v);
    PaddedValue(w - |Digits(v)|, Digits(v));
    assert Zeros0(0) + Digits(v) == Digits(v);
  }

  lemma FieldNumber(h: seq<Byte>, ofs: nat, v: nat, w: nat)
    requires v < Pow8(w) && w > 0 && ofs + w + 1 <= |h|
    requires forall i: nat :: i <= w ==> h[ofs + i] == Pad(Octal(v, w), i)
    ensures NumberAt(h, ofs, w + 1, v)
  {
    hide Octal, Value;
    OctalNumber(v, w);
    forall i: nat | i < w ensures h[ofs..ofs + w][i] == Octal(v, w)[i] { assert h[ofs + i] == Pad(Octal(v, w), i); }
    assert h[ofs..ofs + w] == Octal(v, w);
    assert h[ofs + w] == Pad(Octal(v, w), w);
  }

  /** Every field of a header that ustar_make_header composes, as the ustar format lays them out. */
  lemma HeaderFields(name: seq<Byte>, kind: Byte, size: int)
    requires IsString(name) && (kind == REGULAR || kind == DIRECTORY) && 0 <= size <= 0x7FFF_FFFF
    requires Make(name, kind, size).Some?
    ensures var h := Make(name, kind, size).value;
      && |h| == 512 && TextAt(h, 0, 100, Strip(name))
      && NumberAt(h, 100, 8, if kind == 48 then 420 else 493)
      && NumberAt(h, 108, 8, 0) && NumberAt(h, 116, 8, 0)
      && NumberAt(h, 124, 12, size) && NumberAt(h, 136, 12, 1136102400)
      && NumberAt(h, 148, 8, Checksum(h)) && h[156] == kind
      && TextAt(h, 157, 100, []) && TextAt(h, 257, 6, [117, 115, 116, 97, 114]) && TextAt(h, 263, 2, [48, 48])
      && TextAt(h, 265, 32, [114, 111, 111, 116]) && TextAt(h, 297, 32, [114, 111, 111, 116]) && TextAt(h, 329, 183, [])
  {
    hide Checksum, Octal, Strip, Draft, Summed, NumberAt, TextAt, Make;
    var h := Make(name, kind, size).value;
    MadeFrom(name, kind, size);
    NumberFields(h, Strip(name), kind, size);
    ChksumField(h, Draft(Strip(name), kind, size));
    TextFields(h, Strip(name), kind, size);
  }

  lemma MadeFrom(name: seq<Byte>, kind: Byte, size: int)
    requires 0 <= size <= INT_MAX && Make(name, kind, size).Some?
    ensures Make(name, kind, size).value == Summed(Draft(Strip(name), kind, size)) && |Strip(name)| <= 99
    ensures |Draft(Strip(name), kind, size)| == 512 && Draft(Strip(name), kind, size)[155] == 0
  {
    DraftGap(Strip(name), kind, size);
  }

  lemma SummedAt(h: seq<Byte>, d: seq<Byte>, i: nat)
    requires |d| == 512 && h == Summed(d) && i < 512
    ensures |h| == 512 && h[i] == if 148 <= i < 155 then Pad(Octal(Checksum(d), 7), i - 148) else d[i]
  {
    hide Octal, Checksum;
  }

  lemma DraftField(h: seq<Byte>, name: seq<Byte>, kind: Byte, size: nat, ofs: nat, v: nat, w: nat)
    requires h == Summed(Draft(name, kind, size)) && v < Pow8(w) && w > 0 && (ofs + w < 148 || ofs >= 156) && ofs + w < 512
    requires forall i: nat :: i <= w ==> DraftByte(name, kind, size, ofs + i) == Pad(Octal(v, w), i)
    ensures NumberAt(h, ofs, w + 1, v)
  {
    hide Octal, Checksum, DraftByte;
    forall i: nat | i <= w ensures h[ofs + i] == Pad(Octal(v, w), i) { SummedAt(h, Draft(name, kind, size), ofs + i); }
    FieldNumber(h, ofs, v, w);
  }

  lemma NumberFields(h: seq<Byte>, name: seq<Byte>, kind: Byte, size: nat)
    requires h == Summed(Draft(name, kind, size)) && size <= 0x7FFF_FFFF && (kind == 48 || kind == 53)
    ensures NumberAt(h, 100, 8, if kind == 48 then 420 else 493)
    ensures NumberAt(h, 108, 8, 0) && NumberAt(h, 116, 8, 0)
    ensures NumberAt(h, 124, 12, size) && NumberAt(h, 136, 12, 1136102400)
  {
    hide Octal, Checksum, NumberAt;
    Pow8s();
    ZeroNumber();
    DraftField(h, name, kind, size, 100, if kind == 48 then 420 else 493, 7);
    DraftField(h, name, kind, size, 108, 0, 7);
    DraftField(h, name, kind, size, 116, 0, 7);
    DraftField(h, name, kind, size, 124, size, 11);
    DraftField(h, name, kind, size, 136, 1136102400, 11);
  }

  lemma ChksumField(h: seq<Byte>, d: seq<Byte>)
    requires |d| == 512 && d[155] == 0 && h == Summed(d)
    ensures |h| == 512 && NumberAt(h, 148, 8, Checksum(h))
  {
    hide Octal, Checksum, Value;
    SummedChecksum(d);
    ChecksumFits(d);
    Pow8s();
    OctalNumber(Checksum(d), 7);
    forall i: nat | i <= 7 ensures h[148 + i] == Pad(Octal(Checksum(d), 7), i) { SummedAt(h, d, 148 + i); }
    FieldNumber(h, 148, Checksum(d), 7);
  }

  lemma TextFields(h: seq<Byte>, name: seq<Byte>, kind: Byte, size: nat)
    requires h == Summed(Draft(name, kind, size)) && |name| <= 99
    ensures TextAt(h, 0, 100, name) && h[156] == kind && TextAt(h, 157, 100, [])
    ensures TextAt(h, 257, 6, [117, 115, 116, 97, 114]) && TextAt(h, 263, 2, [48, 48])
    ensures TextAt(h, 265, 32, [114, 111, 111, 116]) && TextAt(h, 297, 32, [114, 111, 111, 116]) && TextAt(h, 329, 183, [])
  {
    hide Octal, Checksum;
    forall i: nat | i < 512 && !(148 <= i < 155) ensures h[i] == DraftByte(name, kind, size, i) {
      SummedAt(h, Draft(name, kind, size), i);
    }
  }

  lemma ZeroNumber()
    ensures Octal(0, 7) == Zeros0(7)
  {
    assert Zeros0(6) + [ZERO] == Zeros0(7);
  }

  // ---- accepted headers ----

  /** A string in a field ends at its first null. */
  lemma {:induction false} CStringExactly(s: seq<Byte>)
    ensures var n := |CString(s)|;
      n <= |s| && CString(s) == s[..n] && IsString(s[..n]) && (n < |s| ==> s[n] == 0)
  {
    if s != [] && s[0] != 0 {
      CStringExactly(s[1..]);
      var n := |CString(s[1..])|;
      assert s[..n + 1] == [s[0]] + s[1..][..n];
    }
  }

  /** A header is accepted exactly when it has the magic and the version, its checksum field is a number and the right
      one, the name is short enough to end in its field, the type is a regular file's or a directory's, and a regular
      file's size is a number that fits an int; name, type and size come from their fields. */
  lemma ParseExactly(h: seq<Byte>, size: nat)
    requires |h| == 512
    ensures Parse(h) == Entry(Strip(CString(h[..100])), h[156], size) <==>
      && h[257..263] == [117, 115, 116, 97, 114, 0] && h[263] == 48 && h[264] == 48
      && ParseFrom(h[148..156], 0, 0) == Some(Checksum(h))
      && h[99] == 0 && h[345] == 0
      && (if h[156] == 48 then ParseFrom(h[124..136], 0, 0) == Some(size) && size <= 0x7FFF_FFFF
          else h[156] == 53 && size == 0)
    ensures Parse(h) == Eof <==> forall i: nat :: i < 512 ==> h[i] == 0
    ensures Parse(h).Entry? ==> Parse(h).name == Strip(CString(h[..100])) && Parse(h).kind == h[156]
  {
    hide Checksum, ParseFrom, Strip, CString;
    assert Magic() + [0] == [117, 115, 116, 97, 114, 0];
    if AllZero(h) { assert h[257..263][0] == 0; }
  }
}
