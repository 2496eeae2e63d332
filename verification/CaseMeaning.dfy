/** What the canonical form of a character is, kind of run by kind of run. */
module CaseMeaning {
  import opened CaseTables

  /** d is the canonical form of c, and the only one. */
  ghost predicate Folds(t: CaseTable, c: nat, unicode: bool, d: nat) {
    forall x: nat :: Canonical(t, c, unicode, x) <==> x == d
  }

  /** Only the run that holds the character matters. */
  lemma FoldsByRun(t: CaseTable, i: nat, c: nat, unicode: bool)
    requires TableOk(t) && i < |t.runs| && InRun(t.runs[i], c) && c >= 128
    ensures Folds(t, c, unicode, FoldingEntry(t, c, t.runs[i], unicode))
  {
    hide FoldingEntry;
    forall x: nat
      ensures Canonical(t, c, unicode, x) <==> x == FoldingEntry(t, c, t.runs[i], unicode)
    {
      if Canonical(t, c, unicode, x) {
        var j :| 0 <= j < |t.runs| && InRun(t.runs[j], c) && x == FoldingEntry(t, c, t.runs[j], unicode);
        RunUnique(t, c, i, j);
      }
    }
  }

  /** In a run of alternating cases, an upper case letter and the lower case letter behind it have one form: the lower
      one in Unicode mode and the upper one otherwise. */
  lemma AlternatingPair(t: CaseTable, i: nat, k: nat, unicode: bool)
    requires TableOk(t) && i < |t.runs| && t.runs[i].kind.UL? && t.runs[i].code >= 128 && 2 * k + 1 < t.runs[i].len
    ensures var upper := t.runs[i].code + 2 * k; var form := if unicode then upper + 1 else upper;
      Folds(t, upper, unicode, form) && Folds(t, upper + 1, unicode, form)
  {
    hide Folds;
    var r, upper := t.runs[i], t.runs[i].code + 2 * k;
    FoldsByRun(t, i, upper, unicode);
    FoldsByRun(t, i, upper + 1, unicode);
    AlternatingEntry(t, r, 2 * k, unicode);
    AlternatingEntry(t, r, 2 * k + 1, unicode);
  }

  lemma AlternatingEntry(t: CaseTable, r: CaseRun, a: nat, unicode: bool)
    requires r.kind.UL? && a < r.len && r.code >= 128
    ensures FoldingEntry(t, r.code + a, r, unicode)
         == if a % 2 == 0 then (if unicode then r.code + a + 1 else r.code + a)
            else if unicode then r.code + a else r.code + a - 1
  {
  }

  /** Two letters of such a run have the same form exactly when they are one pair. */
  lemma AlternatingForms(t: CaseTable, i: nat, c: nat, d: nat, unicode: bool, x: nat)
    requires TableOk(t) && i < |t.runs| && t.runs[i].kind.UL? && t.runs[i].code >= 128
    requires InRun(t.runs[i], c) && InRun(t.runs[i], d) && Canonical(t, c, unicode, x)
    ensures Canonical(t, d, unicode, x) <==> (c - t.runs[i].code) / 2 == (d - t.runs[i].code) / 2
  {
    hide Canonical;
    var r := t.runs[i];
    AlternatingPair(t, i, (c - r.code) / 2, unicode);
    AlternatingPair(t, i, (d - r.code) / 2, unicode);
  }

  /** The upper, title and lower case letters of a run of three have one form: the lower one in Unicode mode and the
      upper one otherwise. */
  lemma ThreeCases(t: CaseTable, i: nat, c: nat, unicode: bool)
    requires TableOk(t) && i < |t.runs| && t.runs[i].kind.LSU? && t.runs[i].code >= 128 && InRun(t.runs[i], c)
    ensures Folds(t, c, unicode, t.runs[i].code + if unicode then 2 else 0)
  {
    FoldsByRun(t, i, c, unicode);
  }

  /** Runs that are mapped to another row: upper case runs and, in Unicode mode, those marked for folding. */
  predicate Shifts(k: RunKind, unicode: bool) {
    k.UF? || (if unicode then k.LF? else k.U?)
  }

  /** A mapped run is shifted as a whole to the start of row `data`; without Unicode mode a character is not mapped to
      an ASCII one. */
  lemma ShiftedRun(t: CaseTable, i: nat, c: nat, unicode: bool)
    requires TableOk(t) && i < |t.runs| && Shifts(t.runs[i].kind, unicode) && InRun(t.runs[i], c) && c >= 128
    requires t.runs[i].data < |t.runs|
    ensures var r := t.runs[i]; var d := t.runs[r.data].code + (c - r.code);
      Folds(t, c, unicode, if unicode || d >= 128 then d else c)
  {
    FoldsByRun(t, i, c, unicode);
  }

  /** So neighbours go to neighbours. */
  lemma ShiftedNeighbours(t: CaseTable, i: nat, c: nat, d: nat)
    requires TableOk(t) && i < |t.runs| && Shifts(t.runs[i].kind, true) && t.runs[i].data < |t.runs|
    requires InRun(t.runs[i], c) && InRun(t.runs[i], c + 1) && c >= 128 && Canonical(t, c, true, d)
    ensures Canonical(t, c + 1, true, d + 1)
  {
    hide Canonical;
    ShiftedRun(t, i, c, true);
    ShiftedRun(t, i, c + 1, true);
  }

  /** The other runs of upper or lower case letters are left alone. */
  lemma UnshiftedRun(t: CaseTable, i: nat, c: nat, unicode: bool)
    requires TableOk(t) && i < |t.runs| && InRun(t.runs[i], c) && c >= 128 && !Shifts(t.runs[i].kind, unicode)
    requires t.runs[i].kind.U? || t.runs[i].kind.L? || t.runs[i].kind.LF?
    ensures Folds(t, c, unicode, c)
  {
    FoldsByRun(t, i, c, unicode);
  }

  /** The runs that say where their characters go: by the field `data`, by an entry of the extension table, or to
      several characters. */
  lemma SpecialRun(t: CaseTable, i: nat, c: nat, unicode: bool)
    requires TableOk(t) && i < |t.runs| && InRun(t.runs[i], c) && c >= 128
    requires t.runs[i].data < |t.ext| && t.runs[i].data % 0x40 < |t.ext|
    ensures var r := t.runs[i]; var x := t.ext[r.data];
      && (r.kind.UF_D20? && unicode ==> Folds(t, c, true, r.data + 0x20))
      && (r.kind.UF_D20? && !unicode ==> Folds(t, c, false, if r.data >= 128 then r.data else c))
      && (r.kind.UF_D1_EXT? && unicode ==> Folds(t, c, true, x + 1))
      && (r.kind.UF_D1_EXT? && !unicode ==> Folds(t, c, false, if x >= 128 then x else c))
      && (r.kind.U_EXT? && unicode ==> Folds(t, c, true, c))
      && (r.kind.U_EXT? && !unicode ==> Folds(t, c, false, if x >= 128 then x else c))
      && (r.kind.LF_EXT? && unicode ==> Folds(t, c, true, x))
      && (r.kind.LF_EXT? && !unicode ==> Folds(t, c, false, c))
      && (r.kind.U2L_399_EXT2? && unicode ==> Folds(t, c, true, t.ext[r.data % 0x40] + (c - r.code)))
      && (r.kind.U2L_399_EXT2? && !unicode ==> Folds(t, c, false, c))
  {
    FoldsByRun(t, i, c, unicode);
  }

  /** A character that converts to several is its own form, but for three pairs in Unicode mode. */
  lemma SeveralRun(t: CaseTable, i: nat, c: nat, unicode: bool)
    requires TableOk(t) && i < |t.runs| && InRun(t.runs[i], c) && c >= 128
    requires t.runs[i].kind.UF_EXT2? || t.runs[i].kind.LF_EXT2? || t.runs[i].kind.UF_EXT3?
    ensures unicode && c == 0xfb06 ==> Folds(t, c, true, 0xfb05)
    ensures unicode && c == 0x1fd3 ==> Folds(t, c, true, 0x390)
    ensures unicode && c == 0x1fe3 ==> Folds(t, c, true, 0x3b0)
    ensures !unicode || c !in [0xfb06, 0x1fd3, 0x1fe3] ==> Folds(t, c, unicode, c)
  {
    FoldsByRun(t, i, c, unicode);
  }

  /** A character of no run is its own form. */
  lemma OutsideRuns(t: CaseTable, c: nat, unicode: bool)
    requires c >= 128 && forall i :: 0 <= i < |t.runs| ==> !InRun(t.runs[i], c)
    ensures Folds(t, c, unicode, c)
  {
  }

  /** Two ASCII characters have the same form exactly when they are the same or a letter in two cases, and the form is a
      lower case letter in Unicode mode and an upper case one otherwise. */
  lemma AsciiForms(t: CaseTable, c: nat, d: nat, unicode: bool, x: nat)
    requires c < 128 && d < 128 && Canonical(t, c, unicode, x)
    ensures Canonical(t, d, unicode, x) <==>
      c == d || (65 <= c <= 90 && d == c + 32) || (97 <= c <= 122 && d == c - 32)
    ensures x == c || (if unicode then 97 <= x <= 122 && x == c + 32 else 65 <= x <= 90 && x == c - 32)
  {
  }

  // ---- the characters that a mask selects ----

  /** The entries that the run names differ from its own characters. */
  predicate Moves(t: CaseTable, c: nat, r: CaseRun) {
    match r.kind
    case U | L | UF | LF => Entry(t.runs, r.data, CaseRun(0, 0, U, 0)).code != r.code
    case U2L_399_EXT2 => Ext(t, r.data % 0x40) != r.code
    case UF_D20 => c != r.data && c != r.data + 0x20
    case UF_D1_EXT => c != Ext(t, r.data) && c != Ext(t, r.data) + 1
    case U_EXT | LF_EXT => c != Ext(t, r.data)
    case _ => true
  }

  /** The conversion changes the character. */
  predicate Changes(t: CaseTable, c: nat, conv: ConvType, r: CaseRun)
    requires InRun(r, c)
  {
    ConvEntry(t, c, conv, r) != One(c)
  }

  /** A mask selects exactly the characters that one of its conversions changes. */
  lemma MaskMeaning(t: CaseTable, c: nat, r: CaseRun, m: CaseMask)
    requires InRun(r, c) && RunOk(r) && Moves(t, c, r)
    ensures Affected(r, c, m) <==>
      (m.upper && Changes(t, c, ToUpper, r)) || (m.lower && Changes(t, c, ToLower, r)) || (m.fold && Changes(t, c, Fold, r))
  {
    match r.kind
    case UL => assert (c - r.code) % 2 == 0 || (c - r.code) % 2 == 1;
    case LSU => assert 0 <= c - r.code < 3;
    case _ =>
  }
}
