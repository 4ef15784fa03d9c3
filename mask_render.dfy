/**
 * strMask: renders an inotify mask as the names of its set flags, in a
 * fixed priority order, joined by '|'; bits with no name are rendered in
 * hexadecimal at the end.
 */
module MaskRender {
  import opened Wrappers
  import opened InotifyFlags

  /** One named flag: the position of its bit and the name strMask prints. */
  datatype Flag = Flag(bit: nat, name: string)

  /**
   * The flags in the order strMask tests them. MODIFY is printed with the
   * transposed spelling "IN_MODFIY", exactly as the renderer has it.
   */
  const Table: seq<Flag> := [
    Flag(0, "IN_ACCESS"),
    Flag(2, "IN_ATTRIB"),
    Flag(3, "IN_CLOSE_WRITE"),
    Flag(4, "IN_CLOSE_NOWRITE"),
    Flag(9, "IN_DELETE"),
    Flag(8, "IN_CREATE"),
    Flag(10, "IN_DELETE_SELF"),
    Flag(1, "IN_MODFIY"),
    Flag(11, "IN_MOVE_SELF"),
    Flag(6, "IN_MOVED_FROM"),
    Flag(7, "IN_MOVED_TO"),
    Flag(5, "IN_OPEN"),
    Flag(15, "IN_IGNORED"),
    Flag(13, "IN_UNMOUNT"),
    Flag(14, "IN_Q_OVERFLOW"),
    Flag(30, "IN_ISDIR")
  ]

  /** No two flags of fs share a bit. */
  ghost predicate DistinctBits(fs: seq<Flag>) {
    forall i, j :: 0 <= i < j < |fs| ==> fs[i].bit != fs[j].bit
  }

  /** No two flags of fs share a name. */
  ghost predicate DistinctNames(fs: seq<Flag>) {
    forall i, j :: 0 <= i < j < |fs| ==> fs[i].name != fs[j].name
  }

  /** The position of each flag's bit in Table; it witnesses that no bit is listed twice. */
  const BitIndex: map<nat, nat> := map[
    0 := 0, 2 := 1, 3 := 2, 4 := 3, 9 := 4, 8 := 5, 10 := 6, 1 := 7,
    11 := 8, 6 := 9, 7 := 10, 5 := 11, 15 := 12, 13 := 13, 14 := 14, 30 := 15]

  lemma TableWellFormed()
    ensures DistinctBits(Table) && DistinctNames(Table)
    ensures forall f :: f in Table ==> |f.name| > 0 && f.name[0] == 'I'
  {
    TableBitsDistinct();
    TableNamesDistinct();
    TableNamesStartWithI();
  }

  lemma TableBitsDistinct()
    ensures DistinctBits(Table)
  {
    assert forall i :: 0 <= i < |Table| ==> Table[i].bit in BitIndex && BitIndex[Table[i].bit] == i;
  }

  /** A number that already tells the names of Table apart: their length and fifth letter. */
  function NameKey(name: string): int {
    if |name| > 4 then |name| * 256 + name[4] as int else 0
  }

  /** The name keys of Table, in order, and the position of each. */
  const NameKeys: seq<int> := [2371, 2388, 3660, 4172, 2373, 2386, 3653, 2383, 3151, 3407, 2895, 1872, 2631, 2638, 3423, 2131]
  const NameIndex: map<int, nat> := map[2371 := 0, 2388 := 1, 3660 := 2, 4172 := 3, 2373 := 4, 2386 := 5, 3653 := 6, 2383 := 7, 3151 := 8, 3407 := 9, 2895 := 10, 1872 := 11, 2631 := 12, 2638 := 13, 3423 := 14, 2131 := 15]

  lemma TableNameKeys()
    ensures |NameKeys| == |Table|
    ensures forall i :: 0 <= i < |Table| ==> NameKey(Table[i].name) == NameKeys[i]
  {
  }

  lemma TableNamesDistinct()
    ensures DistinctNames(Table)
  {
    TableNameKeys();
    assert forall i :: 0 <= i < |NameKeys| ==> NameKeys[i] in NameIndex && NameIndex[NameKeys[i]] == i;
  }

  lemma TableNamesStartWithI()
    ensures forall f :: f in Table ==> |f.name| > 0 && f.name[0] == 'I'
  {
    assert forall i :: 0 <= i < |Table| ==> |Table[i].name| > 0 && Table[i].name[0] == 'I';
  }

  /** The first flag of fs whose bit is set in m: the if-else chain. */
  function FirstSet(m: nat, fs: seq<Flag>): (r: Option<Flag>)
    ensures r.Some? ==> r.value in fs && Bit(m, r.value.bit)
    ensures r.None? ==> forall f :: f in fs ==> !Bit(m, f.bit)
  {
    if fs == [] then None
    else if Bit(m, fs[0].bit) then Some(fs[0])
    else FirstSet(m, fs[1..])
  }

  // ---------------------------------------------------------------------
  // Lower-case hexadecimal, as written by `std::hex << std::showbase`.

  predicate IsHexChar(c: char) {
    '0' <= c <= '9' || 'a' <= c <= 'f'
  }

  function HexChar(d: nat): (c: char)
    requires d < 16
    ensures IsHexChar(c)
  {
    if d < 10 then ('0' as int + d) as char else ('a' as int + d - 10) as char
  }

  function DigitValue(c: char): (d: nat)
    requires IsHexChar(c)
    ensures d < 16
  {
    if c <= '9' then c as int - '0' as int else c as int - 'a' as int + 10
  }

  /** The lower-case hexadecimal digits of n, most significant first. */
  function HexDigits(n: nat): (r: string)
    requires n > 0
    ensures |r| > 0 && r[0] != '0'
    ensures forall i :: 0 <= i < |r| ==> IsHexChar(r[i])
  {
    if n < 16 then [HexChar(n)] else HexDigits(n / 16) + [HexChar(n % 16)]
  }

  /** The value of a string of lower-case hexadecimal digits. */
  function HexValue(s: string): nat
    requires forall i :: 0 <= i < |s| ==> IsHexChar(s[i])
  {
    if s == [] then 0 else 16 * HexValue(s[..|s| - 1]) + DigitValue(s[|s| - 1])
  }

  /** Reading back the digits gives the number that was rendered. */
  lemma {:induction false} HexRoundTrip(n: nat)
    requires n > 0
    ensures HexValue(HexDigits(n)) == n
  {
    if n >= 16 {
      HexRoundTrip(n / 16);
      var s := HexDigits(n);
      assert s[..|s| - 1] == HexDigits(n / 16);
      assert DigitValue(s[|s| - 1]) == n % 16;
    }
  }

  /** The text strMask prints for bits that have no name. */
  function Undetected(m: nat): string
    requires m > 0
  {
    "Undetected mask: 0x" + HexDigits(m)
  }

  // ---------------------------------------------------------------------
  // The renderer.

  /**
   * strMask, for the flag table fs. The first flag of fs that is set names
   * the front of the result; its bit is cleared and the rest is rendered
   * after a '|'. A non-zero mask with no named bit is rendered in
   * hexadecimal.
   */
  function Render(m: nat, fs: seq<Flag>): string
    decreases m
  {
    match FirstSet(m, fs)
    case Some(f) =>
      var rest := Clear(m, f.bit);
      if rest != 0 then f.name + "|" + Render(rest, fs) else f.name
    case None =>
      if m != 0 then Undetected(m) else ""
  }

  /** strMask itself: the renderer over the table of inotify flags. */
  function StrMask(m: nat): string {
    Render(m, Table)
  }

  // ---------------------------------------------------------------------
  // A reference description of the rendering: the names of the set flags
  // in table order, then the left-over bits.

  /** The flags of fs whose bit is set in m, in the order of fs. */
  function KnownSet(m: nat, fs: seq<Flag>): (r: seq<Flag>)
    ensures |r| <= |fs|
  {
    if fs == [] then []
    else if Bit(m, fs[0].bit) then [fs[0]] + KnownSet(m, fs[1..])
    else KnownSet(m, fs[1..])
  }

  /** m with the bit of every flag of fs cleared. */
  function Strip(m: nat, fs: seq<Flag>): nat
  {
    if fs == [] then m
    else if Bit(m, fs[0].bit) then Strip(Clear(m, fs[0].bit), fs[1..])
    else Strip(m, fs[1..])
  }

  function Names(fs: seq<Flag>): (r: seq<string>)
    ensures |r| == |fs| && forall i :: 0 <= i < |fs| ==> r[i] == fs[i].name
  {
    if fs == [] then [] else [fs[0].name] + Names(fs[1..])
  }

  /** The '|'-separated parts of the rendering of m over the table fs. */
  function Parts(m: nat, fs: seq<Flag>): seq<string> {
    var left := Strip(m, fs);
    Names(KnownSet(m, fs)) + (if left != 0 then [Undetected(left)] else [])
  }

  /** The '|'-separated parts of strMask(m). */
  function Tokens(m: nat): seq<string> {
    Parts(m, Table)
  }

  function Join(ts: seq<string>): string {
    if ts == [] then "" else if |ts| == 1 then ts[0] else ts[0] + "|" + Join(ts[1..])
  }

  lemma {:induction false} NoBitOfZero(k: nat)
    ensures !Bit(0, k)
  {
    if k > 0 { NoBitOfZero(k - 1); }
  }

  /** Clearing a bit that no flag of fs has leaves their selection alone. */
  lemma {:induction false} KnownSetClearOther(m: nat, k: nat, fs: seq<Flag>)
    requires Bit(m, k)
    requires forall f :: f in fs ==> f.bit != k
    ensures KnownSet(Clear(m, k), fs) == KnownSet(m, fs)
  {
    if fs != [] {
      ClearBit(m, k, fs[0].bit);
      KnownSetClearOther(m, k, fs[1..]);
    }
  }

  /** The first set flag heads the selection; the rest is that of the cleared mask. */
  lemma {:induction false} KnownSetFirst(m: nat, fs: seq<Flag>, f: Flag)
    requires DistinctBits(fs)
    requires FirstSet(m, fs) == Some(f)
    ensures Bit(m, f.bit)
    ensures KnownSet(m, fs) == [f] + KnownSet(Clear(m, f.bit), fs)
  {
    ClearBit(m, f.bit, fs[0].bit);
    if fs[0] == f {
      KnownSetClearOther(m, f.bit, fs[1..]);
    } else {
      KnownSetFirst(m, fs[1..], f);
    }
  }

  lemma {:induction false} KnownSetNone(m: nat, fs: seq<Flag>)
    requires FirstSet(m, fs) == None
    ensures KnownSet(m, fs) == [] && Strip(m, fs) == m
  {
    if fs != [] { KnownSetNone(m, fs[1..]); }
  }

  /** Clearing one of the flags of fs first does not change what Strip leaves. */
  lemma {:induction false} StripClear(m: nat, k: nat, fs: seq<Flag>)
    requires Bit(m, k) && DistinctBits(fs)
    requires exists f :: f in fs && f.bit == k
    ensures Strip(Clear(m, k), fs) == Strip(m, fs)
  {
    var j := fs[0].bit;
    ClearBit(m, k, j);
    if j != k {
      assert exists f :: f in fs[1..] && f.bit == k;
      if Bit(m, j) {
        ClearBit(m, j, k);
        var m' := Clear(m, j);
        StripClear(m', k, fs[1..]);
        assert Clear(m', k) == Clear(Clear(m, k), j);
      } else {
        StripClear(m, k, fs[1..]);
      }
    }
  }

  /** Strip only clears bits. */
  lemma {:induction false} StripOnlyClears(m: nat, fs: seq<Flag>, j: nat)
    requires Bit(Strip(m, fs), j)
    ensures Bit(m, j)
  {
    if fs != [] {
      if Bit(m, fs[0].bit) {
        ClearBit(m, fs[0].bit, j);
        StripOnlyClears(Clear(m, fs[0].bit), fs[1..], j);
      } else {
        StripOnlyClears(m, fs[1..], j);
      }
    }
  }

  /** What Strip leaves has no bit of a flag of fs. */
  lemma {:induction false} StripLeavesNoFlag(m: nat, fs: seq<Flag>, f: Flag)
    requires f in fs
    ensures !Bit(Strip(m, fs), f.bit)
  {
    var k := fs[0].bit;
    var m' := if Bit(m, k) then Clear(m, k) else m;
    if Bit(m, k) { ClearBit(m, k, k); }
    assert Strip(m, fs) == Strip(m', fs[1..]);
    if f == fs[0] {
      if Bit(Strip(m', fs[1..]), k) {
        StripOnlyClears(m', fs[1..], k);
      }
    } else {
      StripLeavesNoFlag(m', fs[1..], f);
    }
  }

  lemma PartsOfZero(fs: seq<Flag>)
    ensures Parts(0, fs) == []
  {
    forall f | f in fs ensures !Bit(0, f.bit) { NoBitOfZero(f.bit); }
    KnownSetNone(0, fs);
  }

  lemma PartsNonEmpty(m: nat, fs: seq<Flag>)
    requires m != 0 && DistinctBits(fs)
    ensures Parts(m, fs) != []
  {
    match FirstSet(m, fs)
    case Some(f) =>
      KnownSetFirst(m, fs, f);
    case None =>
      KnownSetNone(m, fs);
  }

  /**
   * The renderer agrees with the reference description: the names of the
   * set flags in table order, then (if any bit is left) the hexadecimal
   * rendering of the left-over bits, all joined by '|'.
   */
  lemma {:induction false} RenderIsJoinedParts(m: nat, fs: seq<Flag>)
    requires DistinctBits(fs)
    ensures Render(m, fs) == Join(Parts(m, fs))
    decreases m
  {
    match FirstSet(m, fs)
    case Some(f) =>
      KnownSetFirst(m, fs, f);
      var rest := Clear(m, f.bit);
      StripClear(m, f.bit, fs);
      assert Parts(m, fs) == [f.name] + Parts(rest, fs);
      RenderIsJoinedParts(rest, fs);
      var ps := Parts(rest, fs);
      if rest == 0 {
        PartsOfZero(fs);
        assert Parts(m, fs) == [f.name];
      } else {
        PartsNonEmpty(rest, fs);
        assert ([f.name] + ps)[1..] == ps;
        assert Join([f.name] + ps) == f.name + "|" + Join(ps);
      }
    case None =>
      KnownSetNone(m, fs);
  }

  /** strMask(m) is its tokens joined by '|'. */
  lemma StrMaskIsJoinedTokens(m: nat)
    ensures StrMask(m) == Join(Tokens(m))
  {
    TableBitsDistinct();
    RenderIsJoinedParts(m, Table);
  }

  /** The empty mask renders as the empty string. */
  lemma StrMaskOfZero()
    ensures StrMask(0) == ""
  {
    StrMaskIsJoinedTokens(0);
    PartsOfZero(Table);
  }

  /** A mask with no named bit renders as "Undetected mask: 0x" and its hex digits. */
  lemma StrMaskUnnamed(m: nat)
    requires m != 0
    requires forall f :: f in Table ==> !Bit(m, f.bit)
    ensures StrMask(m) == "Undetected mask: 0x" + HexDigits(m)
  {
  }

  /** Membership in the selection is exactly "listed and set". */
  lemma {:induction false} KnownSetMember(m: nat, fs: seq<Flag>, f: Flag)
    ensures f in KnownSet(m, fs) <==> f in fs && Bit(m, f.bit)
  {
    if fs != [] { KnownSetMember(m, fs[1..], f); }
  }

  /** The selection of a table with distinct names has distinct names. */
  lemma {:induction false} KnownSetDistinct(m: nat, fs: seq<Flag>)
    requires DistinctNames(fs)
    ensures DistinctNames(KnownSet(m, fs))
    ensures forall g :: g in KnownSet(m, fs) ==> g in fs
  {
    if fs != [] {
      KnownSetDistinct(m, fs[1..]);
      forall g | g in KnownSet(m, fs[1..]) ensures g.name != fs[0].name {
        var i :| 0 <= i < |fs[1..]| && fs[1..][i] == g;
        assert fs[i + 1] == g;
      }
    }
  }

  /**
   * Each flag's name appears among the parts of the rendering if and only
   * if its bit is set, and no part appears twice (the hexadecimal part
   * starts with 'U', no flag name does).
   */
  lemma PartNamedIffSet(m: nat, fs: seq<Flag>, f: Flag)
    requires f in fs && DistinctNames(fs)
    requires forall g :: g in fs ==> |g.name| > 0 && g.name[0] == 'I'
    ensures f.name in Parts(m, fs) <==> Bit(m, f.bit)
    ensures forall i, j :: 0 <= i < j < |Parts(m, fs)| ==> Parts(m, fs)[i] != Parts(m, fs)[j]
  {
    var ks := KnownSet(m, fs);
    KnownSetDistinct(m, fs);
    KnownSetMember(m, fs, f);
    var left := Strip(m, fs);
    if left != 0 {
      assert Undetected(left)[0] == 'U';
    }
    var ps := Parts(m, fs);
    if f.name in ps {
      var i :| 0 <= i < |ps| && ps[i] == f.name;
      if i < |ks| {
        var g := ks[i];
        assert g in fs && g.name == f.name;
        var a :| 0 <= a < |fs| && fs[a] == g;
        var b :| 0 <= b < |fs| && fs[b] == f;
        assert a == b;
      }
    }
  }

  /** For strMask: a flag is named exactly when its bit is set, and at most once. */
  lemma FlagNamedIffSet(m: nat, f: Flag)
    requires f in Table
    ensures f.name in Tokens(m) <==> Bit(m, f.bit)
    ensures forall i, j :: 0 <= i < j < |Tokens(m)| ==> Tokens(m)[i] != Tokens(m)[j]
  {
    TableWellFormed();
    PartNamedIffSet(m, Table, f);
  }

  lemma {:induction false} BitOfPow2(k: nat, j: nat)
    ensures Bit(Pow2(k), j) <==> j == k
  {
    if k == 0 {
      if j > 0 { NoBitOfZero(j - 1); }
    } else if j > 0 {
      BitOfPow2(k - 1, j - 1);
    }
  }

  /** A mask with a single flag set renders as that flag's name. */
  lemma SingleFlag(fs: seq<Flag>, f: Flag)
    requires f in fs && DistinctBits(fs)
    ensures Render(Pow2(f.bit), fs) == f.name
  {
    var m := Pow2(f.bit);
    BitOfPow2(f.bit, f.bit);
    var g := FirstSet(m, fs).value;
    BitOfPow2(f.bit, g.bit);
    var a :| 0 <= a < |fs| && fs[a] == g;
    var b :| 0 <= b < |fs| && fs[b] == f;
    assert a == b;
  }

  /** IN_MODIFY is rendered with its name misspelt. */
  lemma StrMaskOfModify()
    ensures StrMask(MODIFY) == "IN_MODFIY"
  {
    TableBitsDistinct();
    assert Table[7] == Flag(1, "IN_MODFIY");
    SingleFlag(Table, Table[7]);
  }
}
