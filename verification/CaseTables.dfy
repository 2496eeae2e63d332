/** The case conversion table and the canonicalisation of one character. */
module CaseTables {
  import opened Bytes
  import opened CharSets

  datatype RunKind =
    | U | L | UF | LF | UL | LSU | U2L_399_EXT2 | UF_D20 | UF_D1_EXT | U_EXT | LF_EXT | UF_EXT2 | LF_EXT2 | UF_EXT3

  /** A run of `len` characters from `code` on. */
  datatype CaseRun = CaseRun(code: nat, len: nat, kind: RunKind, data: nat)

  datatype CaseTable = CaseTable(runs: seq<CaseRun>, ext: seq<nat>)

  predicate InRun(r: CaseRun, c: int) {
    r.code <= c < r.code + r.len
  }

  /** Runs are sorted and disjoint, runs of alternating cases are whole, and the fields have their widths. */
  ghost predicate TableOk(t: CaseTable) {
    && (forall i, j :: 0 <= i < j < |t.runs| ==> t.runs[i].code + t.runs[i].len <= t.runs[j].code)
    && (forall i :: 0 <= i < |t.runs| ==> RunOk(t.runs[i]))
    && (forall i :: 0 <= i < |t.ext| ==> t.ext[i] < 0x11_0000)
  }

  predicate RunOk(r: CaseRun) {
    && r.code < 0x2_0000 && 0 < r.len < 0x80 && r.data < 0x1000
    && (r.kind.UL? ==> r.len % 2 == 0)
    && (r.kind.LSU? ==> r.len == 3)
  }

  function Entry<T>(s: seq<T>, i: nat, default: T): T {
    if i < |s| then s[i] else default
  }

  function Ext(t: CaseTable, i: nat): nat {
    Entry(t.ext, i, 0)
  }

  datatype ConvType = ToUpper | ToLower | Fold

  /** One character or several. */
  datatype Conv = One(c: nat) | Several

  function KindIndex(k: RunKind): nat {
    match k
    case U => 0
    case L => 1
    case UF => 2
    case LF => 3
    case _ => 4
  }

  function ConvIndex(v: ConvType): nat {
    match v
    case ToUpper => 0
    case ToLower => 1
    case Fold => 2
  }

  /** Conversion of a character by the run that holds it. */
  function ConvEntry(t: CaseTable, c: nat, conv: ConvType, r: CaseRun): (v: Conv)
    requires InRun(r, c)
  {
    var lower := conv != ToUpper;
    var a := c - r.code;
    match r.kind
    case U | L | UF | LF =>
      if ConvIndex(conv) == KindIndex(r.kind) % 2 || (KindIndex(r.kind) >= 2 && conv == Fold)
      then One(a + Entry(t.runs, r.data, CaseRun(0, 0, U, 0)).code)
      else One(c)
    case UL =>
      if a % 2 != (if lower then 0 else 1) then One(c)
      else One((if a % 2 == 0 then a + 1 else a - 1) + r.code)
    case LSU =>
      if a == 1 then One(if lower then c + 1 else c - 1)
      else if a == (if lower then 0 else 2) then One(if lower then c + 2 else c - 2)
      else One(c)
    case U2L_399_EXT2 =>
      if !lower then Several else One(a + Ext(t, r.data % 0x40))
    case UF_D20 =>
      if conv == ToLower then One(c) else One(r.data + if conv == Fold then 0x20 else 0)
    case UF_D1_EXT =>
      if conv == ToLower then One(c) else One(Ext(t, r.data) + if conv == Fold then 1 else 0)
    case U_EXT => if lower then One(c) else One(Ext(t, r.data))
    case LF_EXT => if lower then One(Ext(t, r.data)) else One(c)
    case LF_EXT2 => if !lower then One(c) else Several
    case UF_EXT2 => if conv == ToLower then One(c) else Several
    case UF_EXT3 => if conv == ToLower then One(c) else Several
  }

  /** Folding of a character by the run that holds it, by the rules of regular expressions. */
  function FoldingEntry(t: CaseTable, c: nat, r: CaseRun, unicode: bool): (d: nat)
    requires InRun(r, c)
  {
    if unicode then
      (match ConvEntry(t, c, Fold, r)
       case One(d) => d
       case Several =>
         if c == 0xfb06 then 0xfb05
         else if c == 0x1fd3 then 0x390
         else if c == 0x1fe3 then 0x3b0
         else c)
    else if c < 128 then
      (if 'a' as int <= c <= 'z' as int then c - 'a' as int + 'A' as int else c)
    else
      (match ConvEntry(t, c, ToUpper, r)
       case One(d) => if d >= 128 then d else c
       case Several => c)
  }

  /** The fast path for ASCII. */
  function FoldAscii(c: nat, unicode: bool): (d: nat) {
    if unicode then (if 'A' as int <= c <= 'Z' as int then c - 'A' as int + 'a' as int else c)
    else (if 'a' as int <= c <= 'z' as int then c - 'a' as int + 'A' as int else c)
  }

  /** The canonical form of a character: the table is searched for the run that holds it. */
  ghost predicate Canonical(t: CaseTable, c: nat, unicode: bool, d: nat) {
    if c < 128 then d == FoldAscii(c, unicode)
    else if exists i :: 0 <= i < |t.runs| && InRun(t.runs[i], c) then
      exists i :: 0 <= i < |t.runs| && InRun(t.runs[i], c) && d == FoldingEntry(t, c, t.runs[i], unicode)
    else d == c
  }

  lemma RunUnique(t: CaseTable, c: int, i: int, j: int)
    requires TableOk(t) && 0 <= i < |t.runs| && 0 <= j < |t.runs| && InRun(t.runs[i], c) && InRun(t.runs[j], c)
    ensures i == j
  {
  }

  /** A character has one canonical form. */
  lemma CanonicalUnique(t: CaseTable, c: nat, unicode: bool, d: nat, d1: nat)
    requires TableOk(t) && Canonical(t, c, unicode, d) && Canonical(t, c, unicode, d1)
    ensures d == d1
  {
    hide FoldingEntry;
    if c >= 128 && exists i :: 0 <= i < |t.runs| && InRun(t.runs[i], c) {
      var i :| 0 <= i < |t.runs| && InRun(t.runs[i], c) && d == FoldingEntry(t, c, t.runs[i], unicode);
      var j :| 0 <= j < |t.runs| && InRun(t.runs[j], c) && d1 == FoldingEntry(t, c, t.runs[j], unicode);
      RunUnique(t, c, i, j);
    }
  }

  /** The binary search of the table. */
  method Canonicalize(t: CaseTable, c: nat, unicode: bool) returns (d: nat)
    requires TableOk(t)
    ensures Canonical(t, c, unicode, d)
  {
    hide FoldingEntry;
    if c < 128 {
      return FoldAscii(c, unicode);
    }
    var lo, hi := 0, |t.runs| - 1;
    while lo <= hi
      invariant 0 <= lo && hi < |t.runs|
      invariant forall i :: 0 <= i < |t.runs| && InRun(t.runs[i], c) ==> lo <= i <= hi
      decreases hi - lo
    {
      var idx := (lo + hi) / 2;
      var r := t.runs[idx];
      if c < r.code {
        hi := idx - 1;
      } else if c >= r.code + r.len {
        lo := idx + 1;
      } else {
        return FoldingEntry(t, c, r, unicode);
      }
    }
    return c;
  }

  // ---- which characters conversion changes ----

  /** The case conversions a character may be selected for. */
  datatype CaseMask = CaseMask(upper: bool, lower: bool, fold: bool)

  predicate Selected(k: RunKind, m: CaseMask) {
    || (m.upper && (k.U? || k.UF? || k.UL? || k.LSU? || k.U2L_399_EXT2? || k.UF_D20? || k.UF_D1_EXT? || k.U_EXT?
                    || k.UF_EXT2? || k.UF_EXT3?))
    || (m.lower && (k.L? || k.LF? || k.UL? || k.LSU? || k.U2L_399_EXT2? || k.LF_EXT? || k.LF_EXT2?))
    || (m.fold && (k.UF? || k.LF? || k.UL? || k.LSU? || k.U2L_399_EXT2? || k.LF_EXT? || k.LF_EXT2? || k.UF_D20?
                   || k.UF_D1_EXT? || k.UF_EXT2? || k.UF_EXT3?))
  }

  /** The characters of a run that the mask selects. */
  predicate Affected(r: CaseRun, c: int, m: CaseMask) {
    && InRun(r, c)
    && Selected(r.kind, m)
    && (r.kind.UL? && !(m.upper && (m.lower || m.fold)) ==> (c - r.code) % 2 == if m.upper then 1 else 0)
    && (r.kind.LSU? && !(m.upper && (m.lower || m.fold)) ==>
         c != r.code + if m.upper then 0 else 2)
  }

  function MaskFor(unicode: bool): CaseMask {
    CaseMask(!unicode, false, unicode)
  }

  /** What the mask does not select, folding leaves alone: the two views of a run's kind agree. */
  lemma UnaffectedFixed(t: CaseTable, c: nat, r: CaseRun, unicode: bool)
    requires InRun(r, c) && RunOk(r) && !Affected(r, c, MaskFor(unicode))
    requires unicode || c >= 128
    ensures FoldingEntry(t, c, r, unicode) == c
  {
    var a := c - r.code;
    if r.kind.LSU? {
      assert 0 <= a < 3;
    }
  }

  /** Folding stays within the code points. */
  lemma FoldingBounded(t: CaseTable, c: nat, r: CaseRun, unicode: bool)
    requires TableOk(t) && InRun(r, c) && RunOk(r)
    ensures FoldingEntry(t, c, r, unicode) < 0x20_0000
  {
  }

  ghost predicate AffectedIn(t: CaseTable, c: int, m: CaseMask) {
    exists i :: 0 <= i < |t.runs| && Affected(t.runs[i], c, m)
  }

  /** The rows for ASCII agree with the fast path. */
  ghost predicate AsciiAgrees(t: CaseTable, unicode: bool) {
    forall c: nat | c < 128 ::
      (AffectedIn(t, c, MaskFor(unicode)) ==>
         forall i :: 0 <= i < |t.runs| && InRun(t.runs[i], c) ==>
           FoldingEntry(t, c, t.runs[i], unicode) == FoldAscii(c, unicode))
      && (!AffectedIn(t, c, MaskFor(unicode)) ==> FoldAscii(c, unicode) == c)
  }

  /** A character that is not selected is its own canonical form. */
  lemma UnaffectedCanonical(t: CaseTable, c: nat, unicode: bool)
    requires TableOk(t) && AsciiAgrees(t, unicode) && !AffectedIn(t, c, MaskFor(unicode))
    ensures Canonical(t, c, unicode, c)
  {
    hide FoldingEntry, Affected;
    if c >= 128 && exists i :: 0 <= i < |t.runs| && InRun(t.runs[i], c) {
      var i :| 0 <= i < |t.runs| && InRun(t.runs[i], c);
      UnaffectedFixed(t, c, t.runs[i], unicode);
    }
  }

  /** The canonical form of a selected character is the folding of its run. */
  lemma AffectedCanonical(t: CaseTable, c: nat, unicode: bool, i: int)
    requires TableOk(t) && AsciiAgrees(t, unicode)
    requires 0 <= i < |t.runs| && Affected(t.runs[i], c, MaskFor(unicode))
    ensures Canonical(t, c, unicode, FoldingEntry(t, c, t.runs[i], unicode))
  {
    hide FoldingEntry;
  }
}
