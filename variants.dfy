/**
 How the two `clean_cell` variants relate. On a missing cell both return
 it unchanged; on text they disagree exactly when the stripped text has a
 dot and is either parenthesised (extract.py keeps the dot, MOSAIC.py turns
 it into a comma) or also has a comma (extract.py leaves it alone, MOSAIC.py
 still replaces the dot).
 */
module Variants {
  import opened PyStr
  import opened Cells
  import Extract
  import Mosaic

  /** Without a dot in the stripped text the variants agree. */
  lemma AgreeWithoutDot(s: string)
    requires '.' !in Strip(s)
    ensures Extract.CleanCell(Text(s)) == Mosaic.CleanCell(Text(s))
  {
    ReplaceCharAbsent(Strip(s), '.', ',');
  }

  /** On unparenthesised text with dots and no comma the variants agree. */
  lemma AgreeOnDotsWithoutComma(s: string)
    requires var v := Strip(s); '.' in v && !Wrapped(v) && ',' !in v
    ensures Extract.CleanCell(Text(s)) == Mosaic.CleanCell(Text(s))
  {
    ReplaceCharWrapped(Strip(s), '.', ',');
  }

  /** Parenthesised text with a dot: extract.py keeps the dot, MOSAIC.py does not. */
  lemma DifferOnParenthesisedDot(s: string)
    requires var v := Strip(s); '.' in v && Wrapped(v)
    ensures '.' in Extract.CleanCell(Text(s)).s
    ensures Extract.CleanCell(Text(s)) != Mosaic.CleanCell(Text(s))
  {
    var v := Strip(s);
    var k :| 0 <= k < |v| && v[k] == '.';
    assert 1 <= k < |v| - 1;
    Extract.ParenthesisedToNegative(s);
    assert Extract.CleanCell(Text(s)).s[k] == v[k];
    Mosaic.NoDotInResult(s);
  }

  /** Unparenthesised text with a dot and a comma: extract.py leaves it as
      is, MOSAIC.py still replaces the dot. */
  lemma DifferOnDotAndComma(s: string)
    requires var v := Strip(s); '.' in v && !Wrapped(v) && ',' in v
    ensures Extract.CleanCell(Text(s)) == Text(Strip(s))
    ensures Extract.CleanCell(Text(s)) != Mosaic.CleanCell(Text(s))
  {
    Extract.OtherwiseOnlyStripped(s);
    Mosaic.NoDotInResult(s);
  }

  /** The two variants differ on a text cell if and only if its stripped
      text contains a dot and is parenthesised or contains a comma. */
  lemma DisagreeExactly(s: string)
    ensures var v := Strip(s);
      Extract.CleanCell(Text(s)) != Mosaic.CleanCell(Text(s)) <==> '.' in v && (Wrapped(v) || ',' in v)
  {
    var v := Strip(s);
    if '.' !in v {
      AgreeWithoutDot(s);
    } else if Wrapped(v) {
      DifferOnParenthesisedDot(s);
    } else if ',' in v {
      DifferOnDotAndComma(s);
    } else {
      AgreeOnDotsWithoutComma(s);
    }
  }

  /** Both variants pass a missing cell through. */
  lemma AgreeOnAbsent()
    ensures Extract.CleanCell(Absent) == Mosaic.CleanCell(Absent) == Absent
  {
  }

  /** `1,234.50` is where the variants part ways: extract.py keeps it,
      MOSAIC.py gives `1,234,50`. */
  lemma GroupedValueDiffers()
    ensures Extract.CleanCell(Text("1,234.50")) == Text("1,234.50")
    ensures Mosaic.CleanCell(Text("1,234.50")) == Text("1,234,50")
  {
    Extract.GroupedValueUnchanged();
    Mosaic.GroupedValueExample();
  }
}
