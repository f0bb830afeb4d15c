/**
 * The component fragments of the home page and their concatenation: each file in a
 * fixed list is read in order, and the texts that could be read are joined; a file
 * that does not exist or whose read throws contributes nothing.
 */
module Components {

  /** What reading one file yields: its text, "no such file", or an exception from the read. */
  datatype FileRead = Contents(text: string) | Missing | ReadFailed

  /** The component files, in the order they are joined. */
  const ComponentFiles: seq<string> := [
    "navbar.html", "hero.html", "features.html", "how-it-works.html",
    "testimonials.html", "faq.html", "install.html", "footer.html"
  ]

  /** The text one read adds to the page: its contents, or nothing. */
  function Contribution(f: FileRead): string {
    if f.Contents? then f.text else ""
  }

  /**
   * The concatenation, in list order, of every fragment that was read; it is as long
   * as those fragments put together.
   */
  function ConcatPresent(frags: seq<FileRead>): (r: string)
    ensures |r| == TotalLength(frags)
  {
    if |frags| == 0 then "" else Contribution(frags[0]) + ConcatPresent(frags[1..])
  }

  /** The texts of the fragments that were read, in list order. */
  function PresentTexts(frags: seq<FileRead>): seq<string> {
    if |frags| == 0 then []
    else if frags[0].Contents? then [frags[0].text] + PresentTexts(frags[1..])
    else PresentTexts(frags[1..])
  }

  /** Concatenation of a list of texts. */
  function Join(ts: seq<string>): string {
    if |ts| == 0 then "" else ts[0] + Join(ts[1..])
  }

  /** The summed length of the fragments that were read. */
  function TotalLength(frags: seq<FileRead>): nat {
    if |frags| == 0 then 0 else |Contribution(frags[0])| + TotalLength(frags[1..])
  }

  /** Joining two lists of frags gives the joined concatenations. */
  lemma {:induction false} ConcatPresentAppend(a: seq<FileRead>, b: seq<FileRead>)
    ensures ConcatPresent(a + b) == ConcatPresent(a) + ConcatPresent(b)
    decreases |a|
  {
    if |a| > 0 {
      assert (a + b)[1..] == a[1..] + b;
      ConcatPresentAppend(a[1..], b);
    } else {
      assert a + b == b;
    }
  }

  /** The concatenation is exactly the join of the texts that were read, nothing else. */
  lemma {:induction false} ConcatIsJoinOfPresent(frags: seq<FileRead>)
    ensures ConcatPresent(frags) == Join(PresentTexts(frags))
    decreases |frags|
  {
    if |frags| > 0 {
      ConcatIsJoinOfPresent(frags[1..]);
      if frags[0].Contents? {
        var ts := [frags[0].text] + PresentTexts(frags[1..]);
        assert ts[1..] == PresentTexts(frags[1..]);
      }
    }
  }

  /** A fragment that is missing or whose read throws is skipped, and the others are kept. */
  lemma {:induction false} SkipUnread(a: seq<FileRead>, x: FileRead, b: seq<FileRead>)
    requires !x.Contents?
    ensures ConcatPresent(a + [x] + b) == ConcatPresent(a) + ConcatPresent(b)
  {
    var ax := a + [x];
    ConcatPresentAppend(ax, b);
    ConcatPresentAppend(a, [x]);
    var one := ConcatPresent([x]);
    assert one == Contribution(x) + ConcatPresent([x][1..]);
    assert [x][1..] == [];
    assert one == "";
  }

  /** For [A, missing, C] the concatenation is exactly A followed by C. */
  lemma MissingMiddle(a: string, c: string)
    ensures ConcatPresent([Contents(a), Missing, Contents(c)]) == a + c
  {
    SkipUnread([Contents(a)], Missing, [Contents(c)]);
    assert [Contents(a)] + [Missing] + [Contents(c)] == [Contents(a), Missing, Contents(c)];
    assert [Contents(a)][1..] == [] && [Contents(c)][1..] == [];
  }

  /** Where the contribution of fragment `i` starts in the concatenation. */
  function Offset(frags: seq<FileRead>, i: nat): nat
    requires i <= |frags|
  {
    |ConcatPresent(frags[..i])|
  }

  /**
   * Every fragment that was read appears intact in the concatenation, at its offset,
   * and the fragments follow one another in list order without overlapping.
   */
  lemma FragmentInPlace(frags: seq<FileRead>, i: nat)
    requires i < |frags| && frags[i].Contents?
    ensures Offset(frags, i) + |frags[i].text| == Offset(frags, i + 1)
    ensures Offset(frags, i + 1) <= |ConcatPresent(frags)|
    ensures ConcatPresent(frags)[Offset(frags, i)..Offset(frags, i + 1)] == frags[i].text
  {
    var pre, mid, post := frags[..i], [frags[i]], frags[i + 1..];
    assert frags == pre + mid + post;
    assert frags[..i + 1] == pre + mid;
    ConcatPresentAppend(pre, mid);
    ConcatPresentAppend(pre + mid, post);
    assert mid[1..] == [];
  }

  /** Offsets never decrease along the list, so earlier fragments come first. */
  lemma {:induction false} OffsetMonotone(frags: seq<FileRead>, i: nat, j: nat)
    requires i <= j <= |frags|
    ensures Offset(frags, i) <= Offset(frags, j)
    decreases j - i
  {
    if i < j {
      OffsetMonotone(frags, i, j - 1);
      assert frags[..j] == frags[..j - 1] + [frags[j - 1]];
      ConcatPresentAppend(frags[..j - 1], [frags[j - 1]]);
    }
  }

  /**
   * The loop of the page handler: start from the empty string and, for each fragment in
   * order, append its text when the file existed and was read.
   */
  method AppendComponents(frags: seq<FileRead>) returns (html: string)
    ensures html == ConcatPresent(frags)
  {
    html := "";
    for i := 0 to |frags|
      invariant html == ConcatPresent(frags[..i])
    {
      match frags[i] {
        case Contents(t) => html := html + t;
        case Missing =>
        case ReadFailed =>
      }
      assert frags[..i + 1] == frags[..i] + [frags[i]];
      ConcatPresentAppend(frags[..i], [frags[i]]);
    }
    assert frags[..|frags|] == frags;
  }
}
