/**
 `clean_cell` of extract.py: a falsy cell is returned as is; otherwise the
 text is stripped, a value wrapped in parentheses becomes `-` followed by
 its interior, and a value with a dot but no comma has every dot turned
 into a comma.
 */
module Extract {
  import opened PyStr
  import opened Cells

  /** The cell normaliser of extract.py. */
  function CleanCell(c: Cell): (r: Cell)
    ensures r.Absent? <==> c.Absent?
  {
    if Falsy(c) then c
    else
      var v := Strip(c.s);
      if Wrapped(v) then Text("-" + Interior(v))
      else if '.' in v && ',' !in v then Text(ReplaceChar(v, '.', ','))
      else Text(v)
  }

  /** An absent or empty cell comes back unchanged. */
  lemma FalsyUnchanged(c: Cell)
    requires Falsy(c)
    ensures CleanCell(c) == c
  {
  }

  /** A parenthesised value becomes `-` and its interior, one character
      shorter than the stripped value; the interior is not checked to be a
      number and keeps its dots. */
  lemma ParenthesisedToNegative(s: string)
    requires Wrapped(Strip(s))
    ensures var v := Strip(s); var r := CleanCell(Text(s)).s;
      && r == "-" + v[1..|v| - 1]
      && |r| == |v| - 1
      && r[0] == '-'
      && forall k :: 1 <= k < |r| ==> r[k] == v[k]
  {
  }

  /** Outside parentheses, a value with a dot and no comma has each dot
      turned into a comma and every other character kept in place. */
  lemma DotsBecomeCommas(s: string)
    requires var v := Strip(s); !Wrapped(v) && '.' in v && ',' !in v
    ensures var v := Strip(s); var r := CleanCell(Text(s)).s;
      && |r| == |v|
      && (forall k :: 0 <= k < |v| && v[k] == '.' ==> r[k] == ',')
      && (forall k :: 0 <= k < |v| && v[k] != '.' ==> r[k] == v[k])
      && '.' !in r
  {
    ReplaceCharRemoves(Strip(s), '.', ',');
  }

  /** Outside parentheses, a value with a comma or without a dot is only
      stripped. */
  lemma OtherwiseOnlyStripped(s: string)
    requires var v := Strip(s); !Wrapped(v) && ('.' !in v || ',' in v)
    ensures CleanCell(Text(s)) == Text(Strip(s))
  {
  }

  /** Outside parentheses the result has no surrounding whitespace. */
  lemma UnwrappedResultTrimmed(s: string)
    requires !Wrapped(Strip(s))
    ensures Trimmed(CleanCell(Text(s)).s)
  {
    ReplaceCharTrimmed(Strip(s), '.', ',');
  }

  /** A blank string comes back as "". */
  lemma BlankBecomesEmpty(s: string)
    requires AllWs(s)
    ensures CleanCell(Text(s)) == Text("")
  {
    StripAllWs(s);
  }

  /** Cleaning twice is cleaning once, as long as the stripped value is not
      parenthesised. */
  lemma Idempotent(c: Cell)
    requires c.Text? ==> !Wrapped(Strip(c.s))
    ensures CleanCell(CleanCell(c)) == CleanCell(c)
  {
    if c.Text? && c.s != "" {
      var v := Strip(c.s);
      if '.' in v && ',' !in v {
        var r := ReplaceChar(v, '.', ',');
        ReplaceCharTrimmed(v, '.', ',');
        TrimmedStripFixed(r);
        ReplaceCharWrapped(v, '.', ',');
        ReplaceCharRemoves(v, '.', ',');
        assert CleanCell(c) == Text(r) && r != "";
      } else if v != "" {
        TrimmedStripFixed(v);
      }
    }
  }

  /** A table whose every stripped text is unparenthesised is a fixed point
      after one pass. */
  lemma TableIdempotent(t: Table)
    requires forall i, j :: 0 <= i < |t| && 0 <= j < |t[i]| && t[i][j].Text? ==> !Wrapped(Strip(t[i][j].s))
    ensures MapTable(CleanCell, MapTable(CleanCell, t)) == MapTable(CleanCell, t)
  {
    var r := MapTable(CleanCell, t);
    forall i, j | 0 <= i < |t| && 0 <= j < |t[i]| ensures CleanCell(r[i][j]) == r[i][j] {
      Idempotent(t[i][j]);
    }
    var rr := MapTable(CleanCell, r);
    assert forall i :: 0 <= i < |t| ==> rr[i] == r[i];
  }

  /** The parenthesis rule applies first and is not idempotent: `(1.5)`
      becomes `-1.5`, whose second pass gives `-1,5`; `(abc)` becomes `-abc`. */
  lemma ParenthesisedExamples()
    ensures CleanCell(Text("(1.5)")) == Text("-1.5")
    ensures CleanCell(Text("(abc)")) == Text("-abc")
  {
    TrimmedStripFixed("(1.5)");
    TrimmedStripFixed("(abc)");
  }

  lemma SecondPassExample()
    ensures CleanCell(Text("-1.5")) == Text("-1,5")
  {
    TrimmedStripFixed("-1.5");
    ReplaceCharOnce("-1", "5", '.', ',');
    assert "-1" + ['.'] + "5" == "-1.5";
    assert "-1" + [','] + "5" == "-1,5";
    assert !Wrapped("-1.5") && '.' in "-1.5" && ',' !in "-1.5";
  }

  /** `1,234.50` carries a comma, so it is left as it is. */
  lemma GroupedValueUnchanged()
    ensures CleanCell(Text("1,234.50")) == Text("1,234.50")
  {
    TrimmedStripFixed("1,234.50");
  }
}
