/**
 * String.prototype.replace with a string search value and a string replacement:
 * only the first occurrence is replaced, and the replacement is expanded by
 * GetSubstitution. Beside it, the literal insertion the page handler means to do.
 */
module Replace {
  import opened Outcomes
  import opened Text
  import opened Substitution

  /** `s.replace(pat, replacement)` in ECMAScript, for string arguments. */
  function JsReplace(s: string, pat: string, replacement: string): (r: string)
    ensures !Contains(s, pat) ==> r == s
  {
    match IndexOf(s, pat)
    case None => s
    case Some(p) => s[..p] + GetSubstitution(pat, s, p, replacement) + s[p + |pat|..]
  }

  /**
   * When `pat` first occurs at `p`, the result is the text before `p`, the expanded
   * replacement, and the text after that occurrence, which keeps any later occurrence.
   */
  lemma JsReplaceAtFirst(s: string, pat: string, replacement: string, p: nat)
    requires OccursAt(s, pat, p) && NoneBefore(s, pat, p)
    ensures JsReplace(s, pat, replacement) == s[..p] + GetSubstitution(pat, s, p, replacement) + s[p + |pat|..]
  {
    IndexOfIsFirst(s, pat, p);
  }

  /** Insert `ins` literally in front of the first occurrence of `anchor`; without one, `s` is returned as it is. */
  function InsertBeforeFirst(s: string, anchor: string, ins: string): (r: string)
    ensures !Contains(s, anchor) ==> r == s
    ensures Contains(s, anchor) ==> |r| == |s| + |ins|
  {
    match IndexOf(s, anchor)
    case None => s
    case Some(p) => s[..p] + ins + s[p..]
  }

  /**
   * Splitting the text at the first occurrence of the anchor: the inserted text goes
   * between the part before it and the anchor, and everything from the anchor on,
   * later occurrences included, is kept verbatim.
   */
  lemma InsertAtFirstAnchor(pre: string, anchor: string, suf: string, ins: string)
    requires NoneBefore(pre + anchor + suf, anchor, |pre|)
    ensures InsertBeforeFirst(pre + anchor + suf, anchor, ins) == pre + ins + anchor + suf
  {
    var s := pre + anchor + suf;
    assert s[|pre|..|pre| + |anchor|] == anchor;
    IndexOfIsFirst(s, anchor, |pre|);
    assert s[..|pre|] == pre;
    assert s[|pre|..] == anchor + suf;
  }

  /**
   * The replacement `ins + anchor` inserts `ins` before the anchor literally as long as
   * it contains no expanding `$` reference.
   */
  lemma JsReplaceIsInsertion(s: string, anchor: string, ins: string)
    requires NoRefs(ins + anchor)
    ensures JsReplace(s, anchor, ins + anchor) == InsertBeforeFirst(s, anchor, ins)
  {
    match IndexOf(s, anchor)
    case None =>
    case Some(p) => InsertionAt(s, anchor, ins, p);
  }

  /** The step of JsReplaceIsInsertion at the first anchor `p`. */
  lemma InsertionAt(s: string, anchor: string, ins: string, p: nat)
    requires IndexOf(s, anchor) == Some(p)
    requires NoRefs(ins + anchor)
    ensures JsReplace(s, anchor, ins + anchor) == InsertBeforeFirst(s, anchor, ins)
  {
    var before, after := s[..p], s[p + |anchor|..];
    NoRefsIsLiteral(anchor, s, p, ins + anchor);
    assert s[p..] == anchor + after by {
      assert s[p..p + |anchor|] == anchor;
    }
    calc {
      JsReplace(s, anchor, ins + anchor);
      before + GetSubstitution(anchor, s, p, ins + anchor) + after;
      before + (ins + anchor) + after;
      before + ins + (anchor + after);
      InsertBeforeFirst(s, anchor, ins);
    }
  }
}
