/** Worked examples on the four-line card configuration
    `configure / card 1 / mda 1 / no shutdown`, one space per level. */
module Examples {
  import opened Text
  import opened Records
  import opened PathIndex
  import opened Convert
  import opened EditSpec

  /** Leading spaces in front of text that does not start with whitespace
      are exactly what `lstrip` removes. */
  lemma {:induction false} IndentedLeft(n: nat, t: string)
    requires t != [] && !IsSpace(t[0])
    ensures LStrip(Spaces(n) + t) == t
    decreases n
  {
    if n > 0 {
      IndentedLeft(n - 1, t);
      SpacesFront(n, t);
      LStripSpace(Spaces(n) + t);
    } else {
      assert Spaces(n) + t == t;
    }
  }

  /** A line of `n > 0` spaces starts with a space, and after it come the
      other `n - 1`. */
  lemma {:induction false} SpacesFront(n: nat, t: string)
    requires n > 0
    ensures (Spaces(n) + t)[0] == ' ' && (Spaces(n) + t)[1..] == Spaces(n - 1) + t
  {
    assert Spaces(n) == [' '] + Spaces(n - 1);
  }

  /** A leading space is stripped. */
  lemma {:induction false} LStripSpace(s: string)
    requires s != [] && s[0] == ' '
    ensures LStrip(s) == LStrip(s[1..])
  {
  }

  /** A line of `n` spaces and then text that neither starts nor ends with
      whitespace is not blank, is right-stripped already, is indented by
      `n` and strips to the text. */
  lemma {:induction false} IndentedLine(n: nat, t: string)
    requires t != [] && !IsSpace(t[0]) && !IsSpace(t[|t| - 1])
    ensures !IsBlank(Spaces(n) + t) && RStrip(Spaces(n) + t) == Spaces(n) + t
    ensures Lead(Spaces(n) + t) == n && Strip(Spaces(n) + t) == t
  {
    var s := Spaces(n) + t;
    assert s[|s| - 1] == t[|t| - 1];
    assert s[n] == t[0];
    IndentedLeft(n, t);
  }

  /** The lines of the card configuration, and their stripped texts. */
  const CardLines := ["configure", " card 1", "  mda 1", "   no shutdown"]
  const CardTexts := ["configure", "card 1", "mda 1", "no shutdown"]

  /** The card configuration, `"configure\n card 1\n  mda 1\n   no shutdown"`. */
  const CardText := JoinLines(CardLines)

  const CardRecords := [Record("", "configure"), Record("configure", " card 1"),
                        Record("configure,card 1", "  mda 1"), Record("configure,card 1,mda 1", "   no shutdown")]

  /** Card line `k` is `k` spaces and then its text. */
  lemma {:induction false} CardLineForm(k: nat)
    requires k < 4
    ensures CardLines[k] == Spaces(k) + CardTexts[k]
  {
    if k == 0 {
      assert Spaces(0) == "";
    } else if k == 1 {
      assert Spaces(1) == " ";
    } else if k == 2 {
      assert Spaces(2) == "  ";
    } else {
      assert Spaces(3) == "   ";
    }
  }

  /** Card line `k` is indented by `k`, kept whole by the blank-line filter,
      and strips to its text. */
  lemma {:induction false} CardLine(k: nat)
    requires k < 4
    ensures !IsBlank(CardLines[k]) && RStrip(CardLines[k]) == CardLines[k]
    ensures Lead(CardLines[k]) == k && Strip(CardLines[k]) == CardTexts[k]
    ensures !IsComment(CardLines[k], [])
  {
    CardLineForm(k);
    var t := CardTexts[k];
    assert t != [] && !IsSpace(t[0]) && !IsSpace(t[|t| - 1]) by {
      assert k == 0 || k == 1 || k == 2 || k == 3;
    }
    IndentedLine(k, t);
  }

  /** The card text has no tab. */
  lemma {:induction false} CardTextLines()
    ensures '\t' !in CardText
  {
    forall k | 0 <= k < |CardLines|
      ensures '\t' !in CardLines[k]
    {
      if k == 0 {
        assert '\t' !in "configure";
      } else if k == 1 {
        assert '\t' !in " card 1";
      } else if k == 2 {
        assert '\t' !in "  mda 1";
      } else {
        assert '\t' !in "   no shutdown";
      }
    }
    JoinAvoids(CardLines, "\n", '\t');
  }

  /** Splitting the card text and dropping blank lines gives the card lines. */
  lemma {:induction false} CardPrepared()
    ensures '\t' !in CardText
    ensures Prepare(SplitLines(CardText)) == CardLines
  {
    CardTextLines();
    SplitLinesJoin(CardLines);
    forall k | 0 <= k < |CardLines| ensures !IsBlank(CardLines[k]) && RStrip(CardLines[k]) == CardLines[k] {
      CardLine(k);
    }
    PrepareFixed(CardLines);
  }

  const CardShapeList := [Shape(0, false), Shape(1, false), Shape(2, false), Shape(3, false)]

  /** What the indexer sees of the card lines: one level deeper per line,
      no comment. */
  lemma {:induction false} CardShapes()
    ensures Shapes(CardLines, []) == CardShapeList
  {
    var sh := CardShapeList;
    forall k | 0 <= k < 4
      ensures Shape(Lead(CardLines[k]), IsComment(CardLines[k], [])) == sh[k]
    {
      CardLine(k);
    }
    ShapesAre(CardLines, [], sh);
  }

  lemma {:induction false} ShapesAre(vals: seq<string>, comments: seq<string>, sh: seq<Shape>)
    requires |sh| == |vals|
    requires forall k :: 0 <= k < |vals| ==> Shape(Lead(vals[k]), IsComment(vals[k], comments)) == sh[k]
    ensures Shapes(vals, comments) == sh
  {
  }

  /** Each card line is indented one deeper than the one before, so every
      earlier line is an ancestor. */
  lemma {:induction false} CardPaths()
    ensures var sh := CardShapeList;
      PathIndices(sh, 0) == [] && PathIndices(sh, 1) == [0] &&
      PathIndices(sh, 2) == [0, 1] && PathIndices(sh, 3) == [0, 1, 2]
  {
    var sh := CardShapeList;
    assert Reaches(sh, 0, 1);
    assert Reaches(sh, 0, 2) && Reaches(sh, 1, 2);
    assert Reaches(sh, 0, 3) && Reaches(sh, 1, 3) && Reaches(sh, 2, 3);
  }

  /** The stripped texts of the first `|idx|` card lines. */
  lemma {:induction false} CardTokens(idx: seq<nat>)
    requires |idx| < 4 && forall k :: 0 <= k < |idx| ==> idx[k] == k
    ensures Tokens(CardLines, idx) == CardTexts[..|idx|]
  {
    var t := Tokens(CardLines, idx);
    forall k | 0 <= k < |idx| ensures t[k] == CardTexts[k] {
      CardLine(k);
    }
  }

  /** A path read through known shapes. */
  lemma {:induction false} PathAtVia(vals: seq<string>, comments: seq<string>, sh: seq<Shape>, j: nat)
    requires j < |vals| && Shapes(vals, comments) == sh
    ensures PathAt(vals, comments, j) == Tokens(vals, PathIndices(sh, j))
  {
  }

  /** The ancestor tokens of card line `j`: the texts of the lines above it. */
  lemma {:induction false} CardPathAt(j: nat)
    requires j < 4
    ensures PathAt(CardLines, [], j) == CardTexts[..j]
  {
    CardShapes();
    CardPathsAt(j);
    CardIdxPrefix(j);
    CardPathVia(j, CardIdx[..j]);
  }

  /** The ancestor indices of card lines: every line above. */
  const CardIdx: seq<nat> := [0, 1, 2]

  lemma {:induction false} CardIdxPrefix(j: nat)
    requires j < 4
    ensures |CardIdx[..j]| == j && forall k :: 0 <= k < j ==> CardIdx[..j][k] == k
  {
  }

  lemma {:induction false} CardPathsAt(j: nat)
    requires j < 4
    ensures PathIndices(CardShapeList, j) == CardIdx[..j]
  {
    CardPaths();
    if j == 0 {
      assert CardIdx[..0] == [];
    } else if j == 1 {
      assert CardIdx[..1] == [0];
    } else if j == 2 {
      assert CardIdx[..2] == [0, 1];
    } else {
      assert CardIdx[..3] == [0, 1, 2];
    }
  }

  /** Card line `j` read through its ancestor indices `idx`, the lines above it. */
  lemma {:induction false} CardPathVia(j: nat, idx: seq<nat>)
    requires j < 4 && |idx| == j && forall k :: 0 <= k < j ==> idx[k] == k
    requires Shapes(CardLines, []) == CardShapeList && PathIndices(CardShapeList, j) == idx
    ensures PathAt(CardLines, [], j) == CardTexts[..j]
  {
    PathAtVia(CardLines, [], CardShapeList, j);
    CardTokens(idx);
  }

  lemma {:induction false} CardJoins()
    ensures Join(CardTexts[..0], ",") == ""
    ensures Join(CardTexts[..1], ",") == "configure"
    ensures Join(CardTexts[..2], ",") == "configure,card 1"
    ensures Join(CardTexts[..3], ",") == "configure,card 1,mda 1"
  {
    assert CardTexts[..1] == ["configure"];
    assert CardTexts[..2] == ["configure", "card 1"];
    assert CardTexts[..3] == ["configure", "card 1", "mda 1"];
    assert Join(["mda 1"], ",") == "mda 1";
    assert Join(["card 1", "mda 1"], ",") == "card 1" + "," + "mda 1";
    assert ["configure", "card 1", "mda 1"][1..] == ["card 1", "mda 1"];
    assert ["configure", "card 1"][1..] == ["card 1"];
  }

  /** The records of the card lines. */
  lemma {:induction false} CardLinearized()
    ensures Linearize(CardLines, [], ",") == CardRecords
  {
    var lin := Linearize(CardLines, [], ",");
    CardJoins();
    forall j | 0 <= j < 4 ensures lin[j] == CardRecords[j] {
      CardPathAt(j);
      assert j == 0 || j == 1 || j == 2 || j == 3;
    }
  }

  /** Building the card configuration gives each line its ancestor path and
      keeps the line's own leading spaces. */
  lemma {:induction false} CardBuild()
    ensures Build(CardText, [], ",") == Success(CardRecords)
  {
    CardPrepared();
    CardLinearized();
  }

  /** The compact request for the last card line, and that line. */
  const DeleteLine := "configure,card 1,mda 1,no shutdown"
  const DeleteText := DeleteLine + "\n"

  lemma {:induction false} DeleteLineParts()
    ensures DeleteLine == "configure,card 1,mda 1" + "," + "no shutdown"
  {
  }

  lemma {:induction false} DeleteTextStrip()
    ensures Strip(DeleteText) == DeleteLine
  {
    assert DeleteLine[0] == 'c' && DeleteLine[|DeleteLine| - 1] == 'n';
    StripNewline(DeleteLine);
  }

  /** A trailing newline is stripped from text that neither starts nor
      ends with whitespace. */
  lemma {:induction false} StripNewline(t: string)
    requires t != [] && !IsSpace(t[0]) && !IsSpace(t[|t| - 1])
    ensures Strip(t + "\n") == t
  {
    var s := t + "\n";
    assert s[..|s| - 1] == t;
    assert RStrip(s) == RStrip(t);
  }

  /** Text without a newline is a single line. */
  lemma {:induction false} OneLine(s: string)
    requires s != "" && '\n' !in s
    ensures SplitLines(s) == [s]
  {
    SplitFree(s, "\n");
  }

  /** The stripped request is one line. */
  lemma {:induction false} DeleteTextLines()
    ensures SplitLines(Strip(DeleteText)) == [DeleteLine]
  {
    DeleteTextStrip();
    DeleteLineFree();
    OneLine(DeleteLine);
  }

  lemma {:induction false} DeleteLineFree()
    ensures DeleteLine != "" && '\n' !in DeleteLine
  {
  }

  /** The request line reads as the last card record. */
  lemma {:induction false} DeleteLineRecord()
    ensures ConvertLine(DeleteLine, 1, [], ",") == CardRecords[3]
  {
    DeleteTokens();
    DeleteLineParts();
    CompactLineRoundTrip(CardTexts[..3], "no shutdown", 1, [], ",");
    DeleteTail();
  }

  /** The ancestor tokens of the request contain no comma and join to its path. */
  lemma {:induction false} DeleteTokens()
    ensures forall k :: 0 <= k < 3 ==> ',' !in CardTexts[..3][k]
    ensures Join(CardTexts[..3], ",") == "configure,card 1,mda 1"
  {
    assert CardTexts[..3] == ["configure", "card 1", "mda 1"];
    CardJoins();
  }

  /** The leaf of the request, indented three levels of one space. */
  lemma {:induction false} DeleteTail()
    ensures Spaces(1 * (if StartsWithAny("no shutdown", []) then 0 else 3)) + Strip("no shutdown") == "   no shutdown"
  {
    assert !StartsWithAny("no shutdown", []);
    CardLine(3);
    CardLineForm(3);
  }

  /** A request of one line converts to that line's record. */
  lemma {:induction false} ConvertOne(text: string, line: string, stepSpace: int, comments: seq<string>, sep: string)
    requires sep != "" && SplitLines(Strip(text)) == [line]
    ensures EcTextConvert(text, stepSpace, comments, sep) == Success([ConvertLine(line, stepSpace, comments, sep)])
  {
    var lines := SplitLines(Strip(text));
    var r := seq(|lines|, k requires 0 <= k < |lines| => ConvertLine(lines[k], stepSpace, comments, sep));
    assert r == [ConvertLine(line, stepSpace, comments, sep)];
  }

  /** With one space per level the request converts to the last card
      record, indentation restored. */
  lemma {:induction false} CardDeleteRequest()
    ensures EcTextConvert(DeleteText, 1, [], ",") == Success([CardRecords[3]])
  {
    DeleteTextLines();
    DeleteLineRecord();
    ConvertOne(DeleteText, DeleteLine, 1, [], ",");
  }

  /** A literal serial delete of the last card record removes exactly that
      record and leaves the first three. */
  lemma {:induction false} CardDeleteLast(m: Matcher)
    ensures DeleteSerial(m, CardRecords, [CardRecords[3]], false, false) == CardRecords[..3]
  {
    var pat := [CardRecords[3]];
    assert forall i :: 0 <= i < 3 ==> CardRecords[i] != CardRecords[3] by {
      assert |CardRecords[0].path| == 0 && |CardRecords[1].path| == 9;
      assert |CardRecords[2].path| == 16 && |CardRecords[3].path| == 22;
    }
    assert forall i :: 0 <= i < 3 ==> !Occurs(CardRecords, pat, i) by {
      forall i | 0 <= i < 3 ensures !Occurs(CardRecords, pat, i) {
        assert CardRecords[i..i + 1][0] == CardRecords[i];
      }
    }
    assert Occurs(CardRecords, pat, 3) by {
      assert CardRecords[3..4] == pat;
    }
    assert FirstHit(m, CardRecords, pat, false, 0) == Some(3);
    assert DeleteRange(CardRecords, 3, 1) == CardRecords[..3];
  }

  /** The card records with their values left-stripped. */
  lemma {:induction false} CardNoSpace(k: nat)
    requires k < 4
    ensures NoSpace(CardRecords)[k] == Record(CardRecords[k].path, CardTexts[k])
  {
    assert CardRecords[k].value == CardLines[k] by {
      assert k == 0 || k == 1 || k == 2 || k == 3;
    }
    CardLineForm(k);
    CardLine(k);
    IndentedLeft(k, CardTexts[k]);
  }

  /** A search whose patterns only the last of four records matches finds
      that record alone. */
  lemma {:induction false} SelectLast(m: Matcher, ns: seq<Record>, path: string, value: string)
    requires |ns| == 4
    requires !m(path, ns[0].path) && !m(path, ns[1].path) && !m(path, ns[2].path)
    requires m(path, ns[3].path) && m(value, ns[3].value)
    ensures Select(m, ns, path, value) == [ns[3]]
  {
    var t3 := ns[1..][1..][1..];
    var t2 := ns[1..][1..];
    assert t3[1..] == [] && t3[0] == ns[3];
    assert Select(m, t3, path, value) == [ns[3]];
    assert t2[0] == ns[2] && t2[1..] == t3;
    assert Select(m, t2, path, value) == [ns[3]];
    assert ns[1..][0] == ns[1];
    assert Select(m, ns[1..], path, value) == [ns[3]];
  }

  /** Prefix matching, the anchored match of a pattern without
      metacharacters. */
  predicate Prefix(p: string, s: string) {
    p <= s
  }

  /** The left-stripped card records, as the search sees them. */
  lemma {:induction false} CardSearchView()
    ensures var ns := NoSpace(CardRecords);
      && ns[0].path == "" && ns[1].path == "configure" && ns[2].path == "configure,card 1"
      && ns[3] == Record("configure,card 1,mda 1", "no shutdown")
  {
    CardNoSpace(0);
    CardNoSpace(1);
    CardNoSpace(2);
    CardNoSpace(3);
  }

  /** Searching the card records with prefix matching for the path of the
      last line and a value starting `no shut` finds that one record, its
      value left-stripped. */
  lemma {:induction false} CardSearch()
    ensures Search(Prefix, CardRecords, "configure,card 1,mda 1", "no shut") ==
      [Record("configure,card 1,mda 1", "no shutdown")]
  {
    var ns := NoSpace(CardRecords);
    var path := "configure,card 1,mda 1";
    CardSearchView();
    assert !Prefix(path, ns[0].path) && !Prefix(path, ns[1].path) && !Prefix(path, ns[2].path);
    assert Prefix(path, ns[3].path) && Prefix("no shut", ns[3].value);
    SelectLast(Prefix, ns, path, "no shut");
  }
}
