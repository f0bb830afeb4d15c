/**
 * The expansion ECMA-262 applies to a replacement string in String.prototype.replace
 * (the GetSubstitution abstract operation), for a string search value: there are no
 * capture groups and no named captures, so only `$$`, `` $` ``, `$&` and `$'` expand;
 * `$1`..`$99`, `$<` and a lone `$` are copied as they stand.
 */
module Substitution {

  /** The characters that turn a preceding `$` into an expanding reference. */
  const RefChars: string := "$`&'"

  /** An expanding reference (`$$`, `` $` ``, `$&` or `$'`) starts at index `i` of `t`. */
  predicate RefAt(t: string, i: int) {
    0 <= i && i + 1 < |t| && t[i] == '$' && t[i + 1] in RefChars
  }

  /** `t` holds no expanding reference, so GetSubstitution copies it unchanged. */
  predicate NoRefs(t: string) {
    forall i :: 0 <= i < |t| ==> !RefAt(t, i)
  }

  /**
   * GetSubstitution(matched, str, position, « », undefined, template): the text that
   * replaces `matched`, found at `position` in `str`, when `template` is the replacement.
   */
  function GetSubstitution(matched: string, str: string, position: nat, template: string): (r: string)
    requires position <= |str|
    ensures '$' !in template ==> r == template
    decreases |template|
  {
    if |template| == 0 then ""
    else if RefAt(template, 0) && template[1] == '$' then
      "$" + GetSubstitution(matched, str, position, template[2..])
    else if RefAt(template, 0) && template[1] == '`' then
      str[..position] + GetSubstitution(matched, str, position, template[2..])
    else if RefAt(template, 0) && template[1] == '&' then
      matched + GetSubstitution(matched, str, position, template[2..])
    else if RefAt(template, 0) then
      // the remaining reference is `$'`: the text after the match
      var tailPos := if position + |matched| <= |str| then position + |matched| else |str|;
      str[tailPos..] + GetSubstitution(matched, str, position, template[2..])
    else
      [template[0]] + GetSubstitution(matched, str, position, template[1..])
  }

  /** A replacement holding no expanding reference is inserted literally. */
  lemma {:induction false} NoRefsIsLiteral(matched: string, str: string, position: nat, template: string)
    requires position <= |str|
    requires NoRefs(template)
    ensures GetSubstitution(matched, str, position, template) == template
    decreases |template|
  {
    if |template| > 0 {
      assert !RefAt(template, 0);
      var rest := template[1..];
      forall i | 0 <= i < |rest|
        ensures !RefAt(rest, i)
      {
        assert !RefAt(template, i + 1);
      }
      NoRefsIsLiteral(matched, str, position, rest);
      assert template == [template[0]] + rest;
    }
  }

  /** `$&` at the front of the replacement expands to the matched text; the rest is expanded after it. */
  lemma AmpersandIsMatch(matched: string, str: string, position: nat, rest: string)
    requires position <= |str|
    ensures GetSubstitution(matched, str, position, "$&" + rest) == matched + GetSubstitution(matched, str, position, rest)
  {
    var t := "$&" + rest;
    assert RefAt(t, 0) && t[1] == '&';
    assert t[2..] == rest;
  }

  /** A trailing text that starts with a character other than a reference character cannot complete a reference begun in front of it. */
  lemma AppendKeepsNoRefs(c: string, tail: string)
    requires NoRefs(c) && NoRefs(tail)
    requires |tail| > 0 && tail[0] !in RefChars
    ensures NoRefs(c + tail)
  {
    var t := c + tail;
    forall i | 0 <= i < |t|
      ensures !RefAt(t, i)
    {
      if i + 1 < |c| {
        assert !RefAt(c, i);
      } else if i + 1 == |c| {
        assert t[i + 1] == tail[0];
      } else {
        assert !RefAt(tail, i - |c|);
      }
    }
  }
}
