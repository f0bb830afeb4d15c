/**
 * The home page route: read the template, join the component fragments, and put the
 * result in front of the first closing body tag; answer 500 when the template cannot
 * be read.
 */
module Page {
  import opened Outcomes
  import opened Text
  import opened Substitution
  import opened Replace
  import opened Components

  /** The tag the components are inserted in front of. */
  const Anchor: string := "</body>"

  /** The only way assembling the page can fail. */
  datatype PageError = TemplateUnavailable

  /** An HTTP answer: status code and body text. */
  datatype Response = Response(status: nat, body: string)

  /** The body sent when the page cannot be built. */
  const ServerErrorBody: string := "Server error"

  /**
   * The page as the handler builds it: the first "</body>" is replaced by the joined
   * components followed by "</body>", a replacement that is subject to `$`-expansion.
   */
  function Assemble(template: FileRead, frags: seq<FileRead>): (r: Result<string, PageError>)
    ensures r.Failure? <==> !template.Contents?
    ensures r.Failure? ==> r.error == TemplateUnavailable
  {
    match template
    case Contents(t) => Success(JsReplace(t, Anchor, ConcatPresent(frags) + Anchor))
    case Missing => Failure(TemplateUnavailable)
    case ReadFailed => Failure(TemplateUnavailable)
  }

  /** The page as the handler means to build it: the components inserted literally. */
  function AssembleLiteral(template: FileRead, frags: seq<FileRead>): (r: Result<string, PageError>)
    ensures r.Failure? <==> !template.Contents?
    ensures r.Success? && Contains(template.text, Anchor) ==> |r.value| == |template.text| + TotalLength(frags)
  {
    match template
    case Contents(t) =>
      Success(InsertBeforeFirst(t, Anchor, ConcatPresent(frags)))
    case Missing => Failure(TemplateUnavailable)
    case ReadFailed => Failure(TemplateUnavailable)
  }

  /**
   * The answer of the `GET /` route callback, when Express reaches it: 200 with the
   * page, or 500 `Server error` when the template cannot be read.
   */
  function ServeRoot(template: FileRead, frags: seq<FileRead>): (r: Response)
    ensures r.status == 200 || r.status == 500
    ensures r.status == 500 <==> !template.Contents?
    ensures r.status == 500 ==> r.body == ServerErrorBody
    ensures r.status == 200 ==> Assemble(template, frags) == Success(r.body)
  {
    match Assemble(template, frags)
    case Success(page) => Response(200, page)
    case Failure(_) => Response(500, ServerErrorBody)
  }

  /**
   * Reading `path` from a file system given as a map from path to what reading it
   * yields: a path the map does not hold does not exist.
   */
  function Lookup(disk: map<string, FileRead>, path: string): (r: FileRead)
    ensures path !in disk ==> r == Missing
    ensures r.Contents? ==> path in disk && disk[path] == r
  {
    if path in disk then disk[path] else Missing
  }

  /** Where a component file lives, relative to the site root. */
  function ComponentPath(file: string): (r: string)
    ensures |"components/"| <= |r| && r[|"components/"|..] == file
  {
    "components/" + file
  }

  /**
   * The reads of the component files, in list order: a component absent from the file
   * system reads as Missing, and one that was read holds what the file system records.
   */
  function ComponentReads(disk: map<string, FileRead>): (r: seq<FileRead>)
    ensures |r| == |ComponentFiles|
    ensures forall i :: 0 <= i < |r| && ComponentPath(ComponentFiles[i]) !in disk ==> r[i] == Missing
    ensures forall i :: 0 <= i < |r| && r[i].Contents? ==> disk[ComponentPath(ComponentFiles[i])] == r[i]
  {
    seq(|ComponentFiles|, i requires 0 <= i < |ComponentFiles| => Lookup(disk, ComponentPath(ComponentFiles[i])))
  }

  /** The `GET /` route callback over a file system, when Express reaches it. */
  function HandleRoot(disk: map<string, FileRead>): (r: Response)
    ensures r.status == 500 <==> !Lookup(disk, "index.html").Contents?
  {
    ServeRoot(Lookup(disk, "index.html"), ComponentReads(disk))
  }

  /** The handler looks at nothing but the template and the listed component files. */
  lemma HandleRootReadsOnlyItsFiles(d1: map<string, FileRead>, d2: map<string, FileRead>)
    requires Lookup(d1, "index.html") == Lookup(d2, "index.html")
    requires forall f :: f in ComponentFiles ==> Lookup(d1, ComponentPath(f)) == Lookup(d2, ComponentPath(f))
    ensures HandleRoot(d1) == HandleRoot(d2)
  {
    var r1, r2 := ComponentReads(d1), ComponentReads(d2);
    forall i | 0 <= i < |ComponentFiles|
      ensures r1[i] == r2[i]
    {
      assert ComponentFiles[i] in ComponentFiles;
    }
    assert r1 == r2;
  }

  /** "</body>" holds no `$` and does not start with a reference character. */
  lemma AnchorHasNoRefs()
    ensures NoRefs(Anchor) && Anchor[0] !in RefChars
  {
  }

  /** With no expanding `$` reference in the components, the handler's page is the literal insertion. */
  lemma AssembleIsLiteral(template: FileRead, frags: seq<FileRead>)
    requires NoRefs(ConcatPresent(frags))
    ensures Assemble(template, frags) == AssembleLiteral(template, frags)
  {
    if template.Contents? {
      AnchorHasNoRefs();
      AppendKeepsNoRefs(ConcatPresent(frags), Anchor);
      JsReplaceIsInsertion(template.text, Anchor, ConcatPresent(frags));
    }
  }

  /**
   * Intended shape: the components go in front of the first "</body>"; the text before
   * it and everything from it on, later "</body>" tags included, are unchanged.
   */
  lemma AssembleLiteralShape(pre: string, suf: string, frags: seq<FileRead>)
    requires NoneBefore(pre + Anchor + suf, Anchor, |pre|)
    ensures AssembleLiteral(Contents(pre + Anchor + suf), frags) == Success(pre + ConcatPresent(frags) + Anchor + suf)
  {
    InsertAtFirstAnchor(pre, Anchor, suf, ConcatPresent(frags));
  }

  /** The handler's page has that shape whenever the components carry no expanding `$` reference. */
  lemma AssembleShape(pre: string, suf: string, frags: seq<FileRead>)
    requires NoneBefore(pre + Anchor + suf, Anchor, |pre|)
    requires NoRefs(ConcatPresent(frags))
    ensures Assemble(Contents(pre + Anchor + suf), frags) == Success(pre + ConcatPresent(frags) + Anchor + suf)
  {
    AssembleIsLiteral(Contents(pre + Anchor + suf), frags);
    AssembleLiteralShape(pre, suf, frags);
  }

  /** A template without "</body>" is sent unchanged, whatever the components are. */
  lemma AssembleWithoutAnchor(t: string, frags: seq<FileRead>)
    requires !Contains(t, Anchor)
    ensures Assemble(Contents(t), frags) == Success(t)
  {
  }

  /** With the anchor present, the page grows by exactly the length of the fragments that were read. */
  lemma AssembleLength(t: string, frags: seq<FileRead>)
    requires Contains(t, Anchor)
    requires NoRefs(ConcatPresent(frags))
    ensures Assemble(Contents(t), frags).Success?
    ensures |Assemble(Contents(t), frags).value| == |t| + TotalLength(frags)
  {
    AssembleIsLiteral(Contents(t), frags);
  }

  /** A missing or unreadable fragment is skipped: the page is the one built without it. */
  lemma AssembleSkipsUnread(template: FileRead, a: seq<FileRead>, x: FileRead, b: seq<FileRead>)
    requires !x.Contents?
    ensures Assemble(template, a + [x] + b) == Assemble(template, a + b)
  {
    SkipUnread(a, x, b);
    ConcatPresentAppend(a, b);
  }

  /** Fragments [A, missing, C] put exactly A followed by C in front of the anchor. */
  lemma MissingMiddleFragment(pre: string, suf: string, a: string, c: string)
    requires NoneBefore(pre + Anchor + suf, Anchor, |pre|)
    requires NoRefs(a + c)
    ensures Assemble(Contents(pre + Anchor + suf), [Contents(a), Missing, Contents(c)])
      == Success(pre + a + c + Anchor + suf)
  {
    var frags := [Contents(a), Missing, Contents(c)];
    MissingMiddle(a, c);
    var joined := ConcatPresent(frags);
    assert joined == a + c;
    assert NoRefs(joined);
    AssembleShape(pre, suf, frags);
    assert pre + joined + Anchor + suf == pre + a + c + Anchor + suf;
  }

  /**
   * The page depends only on the template and on the sequence of fragment texts that
   * were read: which files were missing, and whether they were missing or failed to
   * read, makes no difference.
   */
  lemma AssembleDependsOnlyOnTexts(template: FileRead, f1: seq<FileRead>, f2: seq<FileRead>)
    requires PresentTexts(f1) == PresentTexts(f2)
    ensures Assemble(template, f1) == Assemble(template, f2)
  {
    ConcatIsJoinOfPresent(f1);
    ConcatIsJoinOfPresent(f2);
  }

  /** When the template cannot be read the answer is 500 `Server error` and no page is produced. */
  lemma TemplateFailureIsServerError(template: FileRead, frags: seq<FileRead>)
    requires !template.Contents?
    ensures ServeRoot(template, frags) == Response(500, "Server error")
    ensures Assemble(template, frags).Failure?
  {
  }

  /** The sample template used below: its only "</body>" starts at index 6. */
  const SampleTemplate: string := "<body></body>"

  lemma SampleAnchorAtSix()
    ensures SampleTemplate == "<body>" + Anchor + ""
    ensures NoneBefore(SampleTemplate, Anchor, 6)
    ensures IndexOf(SampleTemplate, Anchor) == Some(6)
  {
    var t := SampleTemplate;
    assert t == "<body>" + Anchor;
    assert t[6..13] == Anchor;
    assert NoneBefore(t, Anchor, 6) by {
      forall i | 0 <= i < 6
        ensures !OccursAt(t, Anchor, i)
      {
        assert t[i + 1] != Anchor[1];
      }
    }
    IndexOfIsFirst(t, Anchor, 6);
  }

  /** Expanding `$&</body>` at the sample's anchor gives the anchor twice. */
  lemma SampleSubstitution()
    ensures GetSubstitution(Anchor, SampleTemplate, 6, "$&" + Anchor) == Anchor + Anchor
  {
    var rep := "$&" + Anchor;
    assert RefAt(rep, 0) && rep[1] == '&' && rep[1] != '$' && rep[1] != '`';
    assert rep[2..] == Anchor;
    AnchorHasNoRefs();
    NoRefsIsLiteral(Anchor, SampleTemplate, 6, Anchor);
  }

  /** The sample with its anchor doubled. */
  lemma SampleSplit()
    ensures SampleTemplate[..6] + (Anchor + Anchor) + SampleTemplate[13..] == "<body></body></body>"
  {
    assert SampleTemplate[..6] == "<body>";
    assert SampleTemplate[13..] == "";
  }

  /** The sample with `$&` written in front of its anchor. */
  lemma SampleWithLiteralDollar()
    ensures "<body>" + "$&" + Anchor + "" == "<body>$&</body>"
  {
    var lhs := "<body>" + "$&" + Anchor + "";
    assert |lhs| == 15;
    forall i | 0 <= i < 15
      ensures lhs[i] == "<body>$&</body>"[i]
    {
    }
  }

  /** The fragment list holding the single text `$&`. */
  lemma DollarFragment()
    ensures ConcatPresent([Contents("$&")]) == "$&"
  {
    assert [Contents("$&")][1..] == [];
  }

  /**
   * As written, a component holding `$&` is expanded: the anchor is copied into the
   * page a second time where the literal text was meant to go.
   */
  lemma DollarAmpersandDuplicatesAnchor()
    ensures Assemble(Contents(SampleTemplate), [Contents("$&")]) == Success("<body></body></body>")
  {
    DollarFragment();
    SampleAnchorAtSix();
    SampleSubstitution();
    var t := SampleTemplate;
    var frags := [Contents("$&")];
    var rep := ConcatPresent(frags) + Anchor;
    assert rep == "$&" + Anchor;
    var page := JsReplace(t, Anchor, rep);
    assert Assemble(Contents(t), frags) == Success(page);
    assert page == t[..6] + (Anchor + Anchor) + t[13..];
    SampleSplit();
  }

  /** The literal insertion puts the two characters `$&` into the page as they are. */
  lemma DollarAmpersandKeptLiterally()
    ensures AssembleLiteral(Contents(SampleTemplate), [Contents("$&")]) == Success("<body>$&</body>")
  {
    DollarFragment();
    SampleAnchorAtSix();
    AssembleLiteralShape("<body>", "", [Contents("$&")]);
    SampleWithLiteralDollar();
  }
}
