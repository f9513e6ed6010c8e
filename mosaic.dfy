/**
 `clean_cell` of MOSAIC.py: a non-string cell is returned as is; otherwise
 the text is stripped, every dot becomes a comma, and only then a value
 wrapped in parentheses becomes `-` followed by its interior.
 */
module Mosaic {
  import opened PyStr
  import opened Cells

  /** The cell normaliser of MOSAIC.py. */
  function CleanCell(c: Cell): (r: Cell)
    ensures r.Absent? <==> c.Absent?
  {
    match c
    case Absent => c
    case Text(s) =>
      var v := ReplaceChar(Strip(s), '.', ',');
      if Wrapped(v) then Text("-" + Interior(v)) else Text(v)
  }

  /** A non-string cell comes back unchanged. */
  lemma AbsentUnchanged()
    ensures CleanCell(Absent) == Absent
  {
  }

  /** No string result contains a dot, whether or not it contains commas. */
  lemma NoDotInResult(s: string)
    ensures '.' !in CleanCell(Text(s)).s
  {
    var v := ReplaceChar(Strip(s), '.', ',');
    ReplaceCharRemoves(Strip(s), '.', ',');
    if Wrapped(v) {
      var i := Interior(v);
      assert '.' !in i by {
        assert forall k :: 0 <= k < |i| ==> i[k] == v[k + 1];
      }
      assert '.' !in "-" + i;
    }
  }

  /** A value whose stripped form is parenthesised becomes `-` and its
      interior with dots turned into commas, one character shorter than the
      stripped value. */
  lemma ParenthesisedToNegative(s: string)
    requires Wrapped(Strip(s))
    ensures var v := Strip(s); var r := CleanCell(Text(s)).s;
      && r == "-" + ReplaceChar(v[1..|v| - 1], '.', ',')
      && |r| == |v| - 1
  {
    var v := Strip(s);
    ReplaceCharWrapped(v, '.', ',');
    ReplaceCharSlice(v, '.', ',', 1, |v| - 1);
  }

  /** A value whose stripped form is not parenthesised is the stripped value
      with each dot turned into a comma: same length, every other character
      at the same index. */
  lemma OtherwiseDotsBecomeCommas(s: string)
    requires !Wrapped(Strip(s))
    ensures var v := Strip(s); var r := CleanCell(Text(s)).s;
      && |r| == |v|
      && (forall k :: 0 <= k < |v| && v[k] == '.' ==> r[k] == ',')
      && (forall k :: 0 <= k < |v| && v[k] != '.' ==> r[k] == v[k])
  {
    ReplaceCharWrapped(Strip(s), '.', ',');
  }

  /** An empty or blank string comes back as "". */
  lemma BlankBecomesEmpty(s: string)
    requires AllWs(s)
    ensures CleanCell(Text(s)) == Text("")
  {
    StripAllWs(s);
  }

  /** On a dot-free string whose stripped form is not parenthesised the
      normaliser only strips. */
  lemma DotFreeOnlyStripped(s: string)
    requires '.' !in s && !Wrapped(Strip(s))
    ensures CleanCell(Text(s)) == Text(Strip(s))
  {
    var w := Strip(s);
    if '.' in w { StripKeepsChars(s, '.'); }
    ReplaceCharAbsent(w, '.', ',');
  }

  /** What the first pass returns is not parenthesised once stripped: it
      starts with `-`, or it is already stripped and unparenthesised. */
  lemma ResultStripsUnwrapped(s: string)
    ensures !Wrapped(Strip(CleanCell(Text(s)).s))
  {
    var v := ReplaceChar(Strip(s), '.', ',');
    var r := CleanCell(Text(s)).s;
    if Wrapped(v) {
      assert r[0] == '-';
      StripKeepsFirst(r);
    } else {
      ReplaceCharTrimmed(Strip(s), '.', ',');
      TrimmedStripFixed(r);
    }
  }

  /** A second pass only strips what the first pass returned. */
  lemma SecondPassStrips(s: string)
    ensures var r := CleanCell(Text(s)).s; CleanCell(Text(r)) == Text(Strip(r))
  {
    NoDotInResult(s);
    ResultStripsUnwrapped(s);
    DotFreeOnlyStripped(CleanCell(Text(s)).s);
  }

  /** Outside parentheses cleaning is idempotent. */
  lemma Idempotent(s: string)
    requires !Wrapped(Strip(s))
    ensures CleanCell(CleanCell(Text(s))) == CleanCell(Text(s))
  {
    var v := Strip(s);
    ReplaceCharWrapped(v, '.', ',');
    ReplaceCharTrimmed(v, '.', ',');
    TrimmedStripFixed(ReplaceChar(v, '.', ','));
    SecondPassStrips(s);
  }

  /** A cleaned table has no dot in any of its cells. */
  lemma TableHasNoDots(t: Table)
    ensures var r := MapTable(CleanCell, t);
      forall i, j :: 0 <= i < |r| && 0 <= j < |r[i]| && r[i][j].Text? ==> '.' !in r[i][j].s
  {
    forall i, j | 0 <= i < |t| && 0 <= j < |t[i]| && t[i][j].Text? {
      NoDotInResult(t[i][j].s);
    }
  }

  /** Dots are replaced before the parenthesis test: `(1.5)` becomes `-1,5`. */
  lemma ParenthesisedExample()
    ensures CleanCell(Text("(1.5)")) == Text("-1,5")
  {
    TrimmedStripFixed("(1.5)");
    ReplaceCharOnce("(1", "5)", '.', ',');
    assert "(1" + ['.'] + "5)" == "(1.5)";
    assert "(1" + [','] + "5)" == "(1,5)";
    assert Interior("(1,5)") == "1,5";
  }

  /** Dots are replaced even beside commas: `1,234.50` becomes `1,234,50`. */
  lemma GroupedValueExample()
    ensures CleanCell(Text("1,234.50")) == Text("1,234,50")
  {
    TrimmedStripFixed("1,234.50");
    ReplaceCharOnce("1,234", "50", '.', ',');
    assert "1,234" + ['.'] + "50" == "1,234.50";
    assert "1,234" + [','] + "50" == "1,234,50";
    assert !Wrapped("1,234,50");
  }
}
