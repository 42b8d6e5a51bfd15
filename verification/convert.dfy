/** The string logic of the `/convert` handler: collect the image entries,
    reject empty content, weave the stored images into the text, prefix the
    title and append the footer. Request parsing, the clock and the file
    write are parameters. */
module Submit {
  import opened Wrappers
  import opened Strings
  import opened Compose
  import Ingest

  /** The form's image field holds one base64 entry per line. */
  const LineBreak: string := "\n"

  /** The closing rule and signature appended to every document, before the time stamp. */
  const FooterLead: string := "\n\n---\n\n\U{55B5}\U{5B50}\U{67D2} &emsp;&emsp;&emsp;&emsp;"

  /** The number of digest digits in a document id. */
  const IdLength: nat := 10

  /** A submission as the handler reads it: from a JSON body, with a list of
      image entries, or from a form, with one text field of image entries.
      Absent fields are already defaulted to the empty string or list. */
  datatype Request =
    | JsonBody(title: string, content: string, imageList: seq<string>)
    | FormBody(title: string, text: string, imageField: string)

  datatype Rejection =
    | ContentRequired   // HTTP 400
    | SaveFailed        // HTTP 500

  /** A saved document: its id (the `hash_id` of the reply) and its text. */
  datatype Stored = Stored(id: string, document: string)

  /** What survives of a line of the image field: not blank, no surrounding whitespace. */
  predicate CleanEntry(x: string)
  {
    x != "" && Stripped(x)
  }

  /** The stripped lines that are not blank, in order. */
  function KeepStripped(lines: seq<string>): (r: seq<string>)
    ensures |r| <= |lines|
    ensures forall j :: 0 <= j < |r| ==> CleanEntry(r[j])
  {
    if |lines| == 0 then []
    else
      var n := |lines| - 1;
      var line := Strip(lines[n]);
      KeepStripped(lines[..n]) + (if line != "" then [line] else [])
  }

  /** The form's image entries: the field cut at line breaks, each line
      stripped, the blank ones dropped. */
  function FormImageEntries(field: string): (r: seq<string>)
    ensures |r| <= |Split(field, LineBreak)|
    ensures forall j :: 0 <= j < |r| ==> CleanEntry(r[j])
  {
    KeepStripped(Split(field, LineBreak))
  }

  /** A single line is kept, stripped, exactly when it is not blank. */
  lemma KeepStrippedLine(x: string)
    ensures KeepStripped([x]) == if Strip(x) != "" then [Strip(x)] else []
  {
    assert [x][..0] == [];
  }

  /** Adding one line adds what that line alone keeps. */
  lemma KeepStrippedStep(init: seq<string>, x: string)
    ensures KeepStripped(init + [x]) == KeepStripped(init) + KeepStripped([x])
  {
    var xs := init + [x];
    assert xs[..|init|] == init && xs[|init|] == x;
    KeepStrippedLine(x);
  }

  /** Lines are filtered one by one: the kept lines of two runs of lines
      are the kept lines of each, in order. */
  lemma {:induction false} KeepStrippedAppend(a: seq<string>, b: seq<string>)
    ensures KeepStripped(a + b) == KeepStripped(a) + KeepStripped(b)
    decreases |b|
  {
    if |b| == 0 {
      assert a + b == a;
      assert KeepStripped(b) == [];
    } else {
      var n := |b| - 1;
      var b0, x := b[..n], b[n];
      assert b == b0 + [x];
      assert a + b == (a + b0) + [x];
      calc {
        KeepStripped(a + b);
        { KeepStrippedStep(a + b0, x); }
        KeepStripped(a + b0) + KeepStripped([x]);
        { KeepStrippedAppend(a, b0); }
        KeepStripped(a) + KeepStripped(b0) + KeepStripped([x]);
        { KeepStrippedStep(b0, x); }
        KeepStripped(a) + KeepStripped(b);
      }
    }
  }

  /** A character that no line contains is in no kept entry. */
  lemma {:induction false} KeepStrippedAvoids(lines: seq<string>, c: char)
    requires forall k :: 0 <= k < |lines| ==> c !in lines[k]
    ensures forall j :: 0 <= j < |KeepStripped(lines)| ==> c !in KeepStripped(lines)[j]
    decreases |lines|
  {
    if |lines| > 0 {
      var n := |lines| - 1;
      var init := lines[..n];
      assert forall k :: 0 <= k < |init| ==> init[k] == lines[k];
      KeepStrippedAvoids(init, c);
      StripKeepsOut(lines[n], c);
    }
  }

  /** A string without `c` keeps none after stripping. */
  lemma StripKeepsOut(x: string, c: char)
    requires c !in x
    ensures c !in Strip(x)
  {
    var a := SpaceRunEnd(x, 0);
    assert Strip(x) == x[a..a + |Strip(x)|];
  }

  /** No form entry holds a line break: together with FormEntriesRoundTrip,
      the entries are exactly the non-blank stripped lines of the field. */
  lemma FormEntriesOneLine(field: string)
    ensures forall j :: 0 <= j < |FormImageEntries(field)| ==> '\n' !in FormImageEntries(field)[j]
  {
    var lines := Split(field, LineBreak);
    forall k | 0 <= k < |lines|
      ensures '\n' !in lines[k]
    {
      NoBreakInPiece(lines[k]);
    }
    KeepStrippedAvoids(lines, '\n');
  }

  /** A piece without the line-break separator has no line-break character. */
  lemma NoBreakInPiece(x: string)
    requires !Contains(x, LineBreak)
    ensures '\n' !in x
  {
    if '\n' in x {
      var i := IndexOf(x, '\n');
      assert x[i..i + 1] == LineBreak;
      assert OccursAt(x, LineBreak, i);
    }
  }

  /** Appending a clean entry appends it to the kept entries. */
  lemma KeepStrippedSnoc(init: seq<string>, x: string)
    requires CleanEntry(x)
    ensures KeepStripped(init + [x]) == KeepStripped(init) + [x]
  {
    var xs := init + [x];
    assert xs[..|init|] == init && xs[|init|] == x;
    assert Strip(x) == x;
  }

  /** Entries that are already clean are all kept, unchanged. */
  lemma {:induction false} KeepStrippedClean(xs: seq<string>)
    requires forall j :: 0 <= j < |xs| ==> CleanEntry(xs[j])
    ensures KeepStripped(xs) == xs
  {
    if |xs| > 0 {
      var n := |xs| - 1;
      var init := xs[..n];
      assert KeepStripped(init) == init by {
        assert forall j :: 0 <= j < |init| ==> init[j] == xs[j];
        KeepStrippedClean(init);
      }
      assert xs == init + [xs[n]];
      KeepStrippedSnoc(init, xs[n]);
    }
  }

  /** Entries pasted one per line come back exactly, provided each is
      non-empty, has no surrounding whitespace and no line break. */
  lemma FormEntriesRoundTrip(xs: seq<string>)
    requires forall j :: 0 <= j < |xs| ==> CleanEntry(xs[j]) && '\n' !in xs[j]
    ensures FormImageEntries(Join(xs, LineBreak)) == xs
  {
    assert LineBreak == ['\n'];
    var lines := Split(Join(xs, LineBreak), LineBreak);
    if |xs| == 0 {
      assert lines == [""];
      assert KeepStripped([""]) == KeepStripped([""][..0]);
    } else {
      assert lines == xs by {
        SplitJoinChar(xs, '\n');
      }
      KeepStrippedClean(xs);
    }
  }

  function Content(req: Request): string
  {
    match req
    case JsonBody(_, content, _) => content
    case FormBody(_, text, _) => text
  }

  /** The image entries handed to `process_images`. */
  function Entries(req: Request): seq<string>
  {
    match req
    case JsonBody(_, _, list) => list
    case FormBody(_, _, field) => FormImageEntries(field)
  }

  /** `# title` and a blank line for a non-empty title, nothing otherwise. */
  function TitleHeader(title: string): (h: string)
    ensures title == "" <==> h == ""
  {
    if title == "" then "" else "# " + title + BlankLine
  }

  function Footer(stamp: string): string
  {
    FooterLead + stamp
  }

  /** The saved text: header, body and footer. The body can be cut back out
      of it, between the header and the footer. */
  function Document(title: string, body: string, stamp: string): (doc: string)
    ensures EndsWith(doc, Footer(stamp))
    ensures title != "" ==> StartsWith(doc, "# " + title + BlankLine)
    ensures |TitleHeader(title)| + |Footer(stamp)| <= |doc|
    ensures doc[|TitleHeader(title)|..|doc| - |Footer(stamp)|] == body
  {
    var header := TitleHeader(title);
    var doc := header + body + Footer(stamp);
    assert doc[..|header|] == header;
    assert doc[|doc| - |Footer(stamp)|..] == Footer(stamp);
    assert doc[|header|..|doc| - |Footer(stamp)|] == body;
    doc
  }

  /** The names `process_images` returns for the request's entries, where
      `clock(i)` is the clock reading taken while processing entry `i`. */
  function StoredNames(req: Request, codecs: Ingest.Codecs, clock: nat -> string): seq<string>
  {
    var entries := Entries(req);
    Ingest.ProcessImages(entries, seq(|entries|, i requires 0 <= i < |entries| => clock(i)), codecs)
  }

  /** The `/convert` handler after request parsing. `clock(i)` is the
      clock reading taken while processing image entry `i`, `footerStamp` and
      `idStamp` the two readings the handler takes afterwards, `ps` the
      positions drawn for the images and `saveText` the outcome of writing
      the document under its id. Empty content is rejected before anything
      else; otherwise the saved document is the optional title header, the
      text with the stored images woven in, and the footer, and its id is a
      digest prefix of the content and a time stamp. */
  function Convert(req: Request, codecs: Ingest.Codecs, saveText: (string, string) -> bool,
                   clock: nat -> string, ps: seq<int>, footerStamp: string, idStamp: string)
    : (r: Result<Stored, Rejection>)
    ensures r == Failure(ContentRequired) <==> Content(req) == ""
    ensures r.Success? ==> EndsWith(r.value.document, Footer(footerStamp))
    ensures r.Success? && req.title != "" ==> StartsWith(r.value.document, "# " + req.title + BlankLine)
    ensures r.Success? ==>
      var doc := r.value.document;
      && |TitleHeader(req.title)| + |Footer(footerStamp)| <= |doc|
      && doc[|TitleHeader(req.title)|..|doc| - |Footer(footerStamp)|]
         == InsertImages(Content(req), StoredNames(req, codecs, clock), ps)
    ensures r.Success? ==>
      var digest := codecs.hexDigest(Content(req) + idStamp);
      && StartsWith(digest, r.value.id)
      && |r.value.id| == (if |digest| < IdLength then |digest| else IdLength)
    ensures r.Success? ==> saveText(r.value.id, r.value.document)
    ensures r == Failure(SaveFailed) <==>
      && Content(req) != ""
      && !saveText(Take(codecs.hexDigest(Content(req) + idStamp), IdLength),
                   Document(req.title, InsertImages(Content(req), StoredNames(req, codecs, clock), ps), footerStamp))
  {
    var content := Content(req);
    if content == "" then Failure(ContentRequired)
    else
      var names := StoredNames(req, codecs, clock);
      var body := InsertImages(content, names, ps);
      var doc := Document(req.title, body, footerStamp);
      var id := Take(codecs.hexDigest(content + idStamp), IdLength);
      if saveText(id, doc) then Success(Stored(id, doc)) else Failure(SaveFailed)
  }

  /** With a draw that fits, the saved document is the header, the joined
      block list of the text and its images, and the footer. */
  lemma ConvertLayout(req: Request, codecs: Ingest.Codecs, saveText: (string, string) -> bool,
                      clock: nat -> string, ps: seq<int>, footerStamp: string, idStamp: string)
    ensures var r := Convert(req, codecs, saveText, clock, ps, footerStamp, idStamp);
      r.Success? && DrawFits(Content(req), StoredNames(req, codecs, clock), ps) ==>
        r.value.document == TitleHeader(req.title)
          + Join(RenderAll(Layout(Content(req), StoredNames(req, codecs, clock), ps)), BlankLine)
          + Footer(footerStamp)
  {
    var r := Convert(req, codecs, saveText, clock, ps, footerStamp, idStamp);
    var names := StoredNames(req, codecs, clock);
    if r.Success? && DrawFits(Content(req), names, ps) {
      var body := InsertImages(Content(req), names, ps);
      assert r.value.document == Document(req.title, body, footerStamp);
      LayoutJoins(Content(req), names, ps);
    }
  }
}
