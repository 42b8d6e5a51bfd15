/** Worked instances of `insert_images_into_text` on short texts. */
module ComposeExamples {
  import opened Strings
  import opened Compose

  /** Two paragraphs, two images: the draw of one position out of `range(2)`
      may pick the slot after the last paragraph, and then the only interior
      blank line gets no image and both images trail the text. */
  lemma LastSlotMayBeDrawn()
    ensures ValidDraw([1], 2, 2)
    ensures Weave(["A", "B"], ["x", "y"], [1]) == [Text("A"), Text("B"), Image("x"), Image("y")]
  {
  }

  lemma SplitLetter(c: char, rest: string)
    requires c != '\n'
    ensures Split([c] + BlankLine + rest, BlankLine) == [[c]] + Split(rest, BlankLine)
  {
    var s := [c] + BlankLine + rest;
    assert s[..2] != BlankLine by { assert s[0] == c; }
    assert s[1..] == BlankLine + rest;
    assert (BlankLine + rest)[..2] == BlankLine;
    assert (BlankLine + rest)[2..] == rest;
    var tail := Split(s[1..], BlankLine);
    assert tail == [""] + Split(rest, BlankLine);
    assert [c] + tail[0] == [c] && tail[1..] == Split(rest, BlankLine);
    assert Split(s, BlankLine) == [[c] + tail[0]] + tail[1..];
  }

  /** `"A\n\nB\n\nC".split("\n\n")` has three paragraphs. */
  lemma ThreeParagraphsSplit()
    ensures Split("A\n\nB\n\nC", BlankLine) == ["A", "B", "C"]
  {
    assert Split("C", BlankLine) == ["C"];
    assert Split("B\n\nC", BlankLine) == ["B", "C"] by {
      assert "B\n\nC" == ['B'] + BlankLine + "C";
      SplitLetter('B', "C");
    }
    assert "A\n\nB\n\nC" == ['A'] + BlankLine + "B\n\nC";
    SplitLetter('A', "B\n\nC");
  }

  /** Three paragraphs, one image, position 2 drawn: the loop places the
      image after the third paragraph and nothing is left over. */
  lemma ThreeParagraphsWeave()
    ensures ValidDraw([2], 3, 1)
    ensures Weave(["A", "B", "C"], ["p.png"], [2]) == [Text("A"), Text("B"), Text("C"), Image("p.png")]
  {
  }

  /** With images and more than one paragraph, the text is the woven block
      list joined by blank lines. */
  lemma SeveralParagraphs(content: string, images: seq<string>, ps: seq<int>)
    requires |images| > 0 && |Split(content, BlankLine)| > 1
    ensures InsertImages(content, images, ps)
         == Join(RenderAll(Weave(Split(content, BlankLine), images, ps)), BlankLine)
  {
  }

  /** With one image the code may draw the slot after the last paragraph, so
      the image ends the text instead of standing between two paragraphs. */
  lemma ThreeParagraphs()
    ensures InsertImages("A\n\nB\n\nC", ["p.png"], [2]) == "A\n\nB\n\nC" + BlankLine + ImageRef("p.png")
  {
    var text := "A\n\nB\n\nC";
    var w := [Text("A"), Text("B"), Text("C"), Image("p.png")];
    calc {
      InsertImages(text, ["p.png"], [2]);
      { ThreeParagraphsSplit(); ThreeParagraphsWeave(); SeveralParagraphs(text, ["p.png"], [2]); }
      Join(RenderAll(w), BlankLine);
      { assert RenderAll(w) == ["A", "B", "C"] + [ImageRef("p.png")]; }
      Join(["A", "B", "C"] + [ImageRef("p.png")], BlankLine);
      { JoinAppend(["A", "B", "C"], ImageRef("p.png"), BlankLine); }
      Join(["A", "B", "C"], BlankLine) + BlankLine + ImageRef("p.png");
      { ThreeParagraphsSplit(); JoinSplit(text, BlankLine); }
      text + BlankLine + ImageRef("p.png");
    }
  }
}
