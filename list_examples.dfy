/** The list pass on the inputs its documentation describes, worked out line by line. */
module ListExamples {
  import opened Strings
  import opened Lists

  /** Two items, a blank line that closes the list, and a line after it. */
  lemma EntriesExample(lines: seq<string>)
    requires lines == ["- a", "- b", "", "text"]
    ensures Entries(lines) == [Open, Item("a"), Item("b"), Close(true), Copied("text")]
  {
    assert lines[..0] == [];
    var a, b, blank, t := lines[0], lines[1], lines[2], lines[3];
    assert IsItem(a) && a[2..] == "a" by { assert a[..2] == "- "; }
    assert IsItem(b) && b[2..] == "b" by { assert b[..2] == "- "; }
    assert !IsItem(blank) && IsBlank(blank);
    assert !IsItem(t) by { assert t[..2] == "te"; }
    ScanLinesSnoc(lines, 0);
    var s1 := ScanLines(lines[..1]);
    assert s1 == Scan(true, [Open, Item("a")]);
    ScanLinesSnoc(lines, 1);
    var s2 := ScanLines(lines[..2]);
    assert s2 == Scan(true, [Open, Item("a"), Item("b")]);
    ScanLinesSnoc(lines, 2);
    var s3 := ScanLines(lines[..3]);
    assert s3 == Scan(false, [Open, Item("a"), Item("b"), Close(true)]);
    ScanLinesSnoc(lines, 3);
    assert lines[..4] == lines;
  }

  /** The second item, then the blank line and the text. */
  lemma SplitSecondItem(b: string)
    requires b == "- b\n\ntext"
    ensures SplitLines(b) == ["- b", "", "text"]
  {
    var c := "\ntext";
    assert b == "- b" + "\n" + c;
    SplitLinesBreak("- b", c);
    assert c == "" + "\n" + "text";
    SplitTwoLines("", "text");
  }

  /** Each '\n' ends a line; the empty line between two breaks is kept. */
  lemma SplitExample(s: string)
    requires s == "- a\n- b\n\ntext"
    ensures SplitLines(s) == ["- a", "- b", "", "text"]
  {
    var b := "- b\n\ntext";
    assert s == "- a" + "\n" + b;
    SplitLinesBreak("- a", b);
    SplitSecondItem(b);
  }

  /** The rendered lines of two items, a closing blank line and a copied line. */
  lemma ListLinesOfEntries(es: seq<Entry>)
    requires es == [Open, Item("a"), Item("b"), Close(true), Copied("text")]
    ensures RenderAll(es) == ["[list]", "[*] a", "[*] b", "[/list]\n", "text"]
  {
    var e1 := [Open];
    var e2 := e1 + [Item("a")];
    var e3 := e2 + [Item("b")];
    var e4 := e3 + [Close(true)];
    assert [] + [Open] == e1;
    assert e4 + [Copied("text")] == es;
    RenderAllSnoc([], Open);
    RenderAllSnoc(e1, Item("a"));
    RenderAllSnoc(e2, Item("b"));
    RenderAllSnoc(e3, Close(true));
    RenderAllSnoc(e4, Copied("text"));
    assert RenderEntry(Item("a")) == "[*] a" && RenderEntry(Item("b")) == "[*] b";
  }

  /** Those lines joined with "\n". */
  lemma JoinListLines(rs: seq<string>)
    requires rs == ["[list]", "[*] a", "[*] b", "[/list]\n", "text"]
    ensures Join(rs, "\n") == "[list]\n[*] a\n[*] b\n[/list]\n\ntext"
  {
    var r1 := rs[1..];
    var r2 := r1[1..];
    var r3 := r2[1..];
    var r4 := r3[1..];
    assert r4 == ["text"];
    assert Join(r3, "\n") == "[/list]\n" + "\n" + "text";
    assert Join(r2, "\n") == "[*] b" + "\n" + ("[/list]\n" + "\n" + "text");
    assert Join(r1, "\n") == "[*] a" + "\n" + ("[*] b" + "\n" + ("[/list]\n" + "\n" + "text"));
    assert Join(rs, "\n") == "[list]" + "\n" + ("[*] a" + "\n" + ("[*] b" + "\n" + ("[/list]\n" + "\n" + "text")));
  }

  /** "[list]", one "[*] " line per item, "[/list]" with an extra line break, then the text unchanged. */
  lemma ListExample(text: string)
    requires text == "- a\n- b\n\ntext"
    ensures ListMarkup(text) == "[list]\n[*] a\n[*] b\n[/list]\n\ntext"
  {
    SplitExample(text);
    EntriesExample(SplitLines(text));
    ListLinesOfEntries(Entries(SplitLines(text)));
    JoinListLines(RenderAll(Entries(SplitLines(text))));
  }

  /** A non-blank line right after an item is dropped, and the list is closed at the end. */
  lemma DroppedEntriesExample(lines: seq<string>)
    requires lines == ["- a", "text"]
    ensures Entries(lines) == [Open, Item("a"), Close(false)]
  {
    assert lines[..0] == [];
    assert IsItem(lines[0]) && lines[0][2..] == "a" by { assert lines[0][..2] == "- "; }
    assert lines[1] == "text";
    assert !IsItem(lines[1]) by { assert lines[1][..2] == "te"; }
    assert !IsBlank(lines[1]) by { assert !IsWhitespace(lines[1][0]); }
    ScanLinesSnoc(lines, 0);
    var s1 := ScanLines(lines[..1]);
    assert s1 == Scan(true, [Open, Item("a")]);
    ScanLinesSnoc(lines, 1);
    assert ScanLines(lines[..2]) == s1;
    assert lines[..2] == lines;
    assert ScanLines(lines) == Scan(true, [Open, Item("a")]);
    assert Entries(lines) == ScanLines(lines).entries + [Close(false)];
    assert [Open, Item("a")] + [Close(false)] == [Open, Item("a"), Close(false)];
  }

  /** The rendered lines of an opened, one-item list closed at the end of the text. */
  lemma DroppedLines(es: seq<Entry>)
    requires es == [Open, Item("a"), Close(false)]
    ensures RenderAll(es) == ["[list]", "[*] a", "[/list]"]
  {
    var e1 := [Open];
    var e2 := e1 + [Item("a")];
    assert [] + [Open] == e1;
    assert e2 + [Close(false)] == es;
    RenderAllSnoc([], Open);
    RenderAllSnoc(e1, Item("a"));
    RenderAllSnoc(e2, Close(false));
    assert RenderEntry(Item("a")) == "[*] a";
  }

  /** Those lines joined with "\n". */
  lemma JoinDroppedLines(rs: seq<string>)
    requires rs == ["[list]", "[*] a", "[/list]"]
    ensures Join(rs, "\n") == "[list]\n[*] a\n[/list]"
  {
    var r1 := rs[1..];
    var r2 := r1[1..];
    assert r2 == ["[/list]"];
    assert Join(r1, "\n") == "[*] a" + "\n" + "[/list]";
    assert Join(rs, "\n") == "[list]" + "\n" + ("[*] a" + "\n" + "[/list]");
  }

  /** The line after the item is lost, and the unterminated list still gets its "[/list]". */
  lemma DroppedLineExample(text: string)
    requires text == "- a\ntext"
    ensures ListMarkup(text) == "[list]\n[*] a\n[/list]"
  {
    assert text == "- a" + "\n" + "text";
    SplitTwoLines("- a", "text");
    DroppedEntriesExample(SplitLines(text));
    DroppedLines(Entries(SplitLines(text)));
    JoinDroppedLines(RenderAll(Entries(SplitLines(text))));
  }
}
