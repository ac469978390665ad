/**
 * scan.py: cutting a stats image into its 5 x 3 grid of cells, reading each
 * cell through OCR, cleaning the token with the correction table and asking
 * the digit classifier for a second opinion on "6" and "9".
 *
 * The image is reduced to its height and width in pixels; OCR and the
 * classifier are functions of the pixel region they are shown.
 */
module Scan {
  import opened Strings

  // ------------------------------------------------------ correction table

  /** The table of `correct_mismatches`, in the order the dict literal lists it. */
  const Corrections: seq<(string, string)> := [
    ("L", "1"),
    ("LL", "11"),
    ("o", "0"),
    ("\U{43E}", "0"),            // Cyrillic small o
    ("\U{B0}", "0"),             // degree sign
    ("\U{5D9}", "1"),            // Hebrew yod
    ("\U{441}\U{43B}", "5"),     // Cyrillic "сл"
    ("O1", "10"),
    ("No text found", "0"),
    ("N0 text f0und", "0"),
    ("N", "2")
  ]

  /** What the OCR boundary answers when it detects nothing. */
  const NoTextFound: string := "No text found"

  predicate KeysNonEmpty(table: seq<(string, string)>) {
    forall k :: 0 <= k < |table| ==> table[k].0 != []
  }

  /** The text after applying every replacement of `table`, first entry first. */
  function ApplyTable(table: seq<(string, string)>, text: string): string
    requires KeysNonEmpty(table)
  {
    if table == [] then text
    else Replace(ApplyTable(table[..|table| - 1], text), table[|table| - 1].0, table[|table| - 1].1)
  }

  lemma ApplyPrefixStep(table: seq<(string, string)>, k: nat, text: string)
    requires KeysNonEmpty(table) && k < |table|
    ensures ApplyTable(table[..k + 1], text) == Replace(ApplyTable(table[..k], text), table[k].0, table[k].1)
  {
    assert table[..k + 1][..k] == table[..k];
  }

  /** `correct_mismatches`: each table entry in turn replaces every occurrence of its key. */
  method CorrectMismatches(text: string) returns (r: string)
    ensures r == ApplyTable(Corrections, text)
  {
    r := text;
    for i := 0 to |Corrections|
      invariant r == ApplyTable(Corrections[..i], text)
    {
      ApplyPrefixStep(Corrections, i, r);
      ApplyPrefixStep(Corrections, i, text);
      r := Replace(r, Corrections[i].0, Corrections[i].1);
    }
    assert Corrections[..|Corrections|] == Corrections;
  }

  /** No key of the table starts with a digit. */
  lemma {:induction false} DigitsPassThrough(table: seq<(string, string)>, text: string)
    requires KeysNonEmpty(table) && AllDigits(text)
    requires forall k :: 0 <= k < |table| ==> !IsDigit(table[k].0[0])
    ensures ApplyTable(table, text) == text
  {
    if table != [] {
      DigitsPassThrough(table[..|table| - 1], text);
      var key := table[|table| - 1].0;
      assert key[0] !in text;
      ReplaceAbsent(text, key, table[|table| - 1].1);
    }
  }

  /** A token made only of digits comes out of `correct_mismatches` unchanged. */
  lemma DigitTokenUnchanged(text: string)
    requires AllDigits(text)
    ensures ApplyTable(Corrections, text) == text
  {
    DigitsPassThrough(Corrections, text);
  }

  /** After a first entry that removes `c`, entries whose values lack `c` never bring it back. */
  lemma {:induction false} StaysOut(table: seq<(string, string)>, text: string, c: char)
    requires KeysNonEmpty(table) && |table| >= 1 && table[0].0 == [c] && c !in table[0].1
    requires forall k :: 0 <= k < |table| ==> c !in table[k].1
    ensures c !in ApplyTable(table, text)
  {
    if |table| == 1 {
      assert table[..0] == [];
      ReplaceRemovesChar(text, c, table[0].1);
    } else {
      StaysOut(table[..|table| - 1], text, c);
      ReplaceKeepsOut(ApplyTable(table[..|table| - 1], text), table[|table| - 1].0, table[|table| - 1].1, c);
    }
  }

  /** A corrected token never contains 'L' (first entry) or 'N' (last entry). */
  lemma NoLOrN(text: string)
    ensures 'L' !in ApplyTable(Corrections, text)
    ensures 'N' !in ApplyTable(Corrections, text)
  {
    StaysOut(Corrections, text, 'L');
    ReplaceRemovesChar(ApplyTable(Corrections[..10], text), 'N', "2");
  }

  /**
   * The no-detection sentinel becomes "0": the 'o' entry first turns it into
   * "N0 text f0und", which the later entry of that spelling maps to "0"
   * (the "No text found" entry itself never matches).
   */
  lemma NoTextFoundBecomesZero()
    ensures ApplyTable(Corrections, NoTextFound) == "0"
  {
    SentinelO();
    SentinelHead(NoTextFound, "N0 text f0und");
    SentinelMiddle(NoTextFound);
    SentinelTail(NoTextFound);
  }

  lemma SentinelHead(text: string, cur: string)
    requires 'L' !in text && Replace(text, "o", "0") == cur
    ensures ApplyTable(Corrections[..3], text) == cur
  {
    assert Corrections[..0] == [];
    SkipRange(0, 2, text, text);
    ApplyPrefixStep(Corrections, 2, text);
  }

  lemma SentinelMiddle(text: string)
    requires ApplyTable(Corrections[..3], text) == "N0 text f0und"
    ensures ApplyTable(Corrections[..8], text) == "N0 text f0und"
  {
    SkipRange(3, 8, text, "N0 text f0und");
  }

  /** Entries whose keys start with characters the current text lacks change nothing. */
  lemma {:induction false} SkipRange(a: nat, b: nat, text: string, cur: string)
    requires a <= b <= |Corrections| && ApplyTable(Corrections[..a], text) == cur
    requires forall k :: a <= k < b ==> Corrections[k].0[0] !in cur
    ensures ApplyTable(Corrections[..b], text) == cur
  {
    if a < b {
      SkipRange(a, b - 1, text, cur);
      ApplyPrefixStep(Corrections, b - 1, text);
      ReplaceAbsent(cur, Corrections[b - 1].0, Corrections[b - 1].1);
    }
  }

  lemma SentinelO()
    ensures Replace(NoTextFound, "o", "0") == "N0 text f0und"
  {
    ReplaceCharAt(NoTextFound, 'o', '0');
  }

  lemma SentinelTail(text: string)
    requires ApplyTable(Corrections[..8], text) == "N0 text f0und"
    ensures ApplyTable(Corrections, text) == "0"
  {
    var s1 := "N0 text f0und";
    ApplyPrefixStep(Corrections, 8, text);
    assert s1[..13][1] != "No text found"[1];
    assert Replace(s1, "No text found", "0") == s1;
    ApplyPrefixStep(Corrections, 9, text);
    assert s1[..13] == "N0 text f0und";
    assert Replace(s1, "N0 text f0und", "0") == "0";
    ApplyPrefixStep(Corrections, 10, text);
    ReplaceAbsent("0", "N", "2");
    assert Corrections[..11] == Corrections;
  }

  // --------------------------------------------------------- grid geometry

  /** Pixel rows [top, bottom) and columns [left, right) of an image. */
  datatype Region = Region(top: int, bottom: int, left: int, right: int)

  predicate IsEmpty(r: Region) { r.top >= r.bottom || r.left >= r.right }

  /**
   * The slice `process_stats` takes for cell (i, j): row band i of height
   * height/5, column j of width width/3, trimmed by a tenth of each on every
   * side. The row trim is the Python slice `margin_h:-margin_h`, which is
   * empty when the margin is 0.
   */
  function CellRegion(height: nat, width: nat, i: nat, j: nat): (r: Region)
    requires i < 5 && j < 3
    ensures i * (height / 5) <= r.top <= r.bottom <= (i + 1) * (height / 5) <= 5 * (height / 5) <= height
    ensures j * (width / 3) <= r.left <= r.right <= (j + 1) * (width / 3) <= 3 * (width / 3) <= width
    ensures r.top - i * (height / 5) == (i + 1) * (height / 5) - r.bottom || r.top == r.bottom
    ensures r.left - j * (width / 3) == (j + 1) * (width / 3) - r.right
    ensures height / 5 < 10 ==> IsEmpty(r)
  {
    var rowHeight := height / 5;
    var charWidth := width / 3;
    var marginH := rowHeight / 10;
    var marginW := charWidth / 10;
    var top := i * rowHeight + marginH;
    Region(top,
           if marginH == 0 then top else (i + 1) * rowHeight - marginH,
           j * charWidth + marginW,
           (j + 1) * charWidth - marginW)
  }

  // --------------------------------------------------- per-cell pipeline

  /** The 6/9 second opinion: class 0 reads as "6", any other class as "9". */
  function SecondOpinion(token: string, predictedClass: int): (r: string)
    ensures token != "6" && token != "9" ==> r == token
    ensures token == "6" || token == "9" ==> (r == "6" <==> predictedClass == 0) && (r == "6" || r == "9")
  {
    if token == "6" || token == "9" then (if predictedClass == 0 then "6" else "9") else token
  }

  /** The token `process_stats` stores for cell (i, j). */
  function CellToken(height: nat, width: nat, i: nat, j: nat,
                     ocr: Region -> string, classify: Region -> int): string
    requires i < 5 && j < 3
  {
    var region := CellRegion(height, width, i, j);
    SecondOpinion(ApplyTable(Corrections, ocr(region)), classify(region))
  }

  /** The body of the inner loop of `process_stats` for cell (i, j). */
  method ReadCell(height: nat, width: nat, i: nat, j: nat, ocr: Region -> string, classify: Region -> int)
    returns (charText: string, asked: bool)
    requires i < 5 && j < 3
    ensures charText == CellToken(height, width, i, j, ocr, classify)
    ensures asked <==> ApplyTable(Corrections, ocr(CellRegion(height, width, i, j))) in {"6", "9"}
  {
    var region := CellRegion(height, width, i, j);
    charText := ocr(region);
    charText := CorrectMismatches(charText);
    asked := charText == "6" || charText == "9";
    if asked {
      var predictedClass := classify(region);
      charText := if predictedClass == 0 then "6" else "9";
    }
  }

  /**
   * `process_stats`: five rows of three tokens in row-major order; the
   * classifier is consulted for exactly the cells whose corrected token is
   * "6" or "9".
   */
  method ProcessStats(height: nat, width: nat, ocr: Region -> string, classify: Region -> int)
    returns (stats: seq<seq<string>>, consulted: set<(nat, nat)>)
    ensures |stats| == 5
    ensures forall i :: 0 <= i < 5 ==> |stats[i]| == 3
    ensures forall i, j :: 0 <= i < 5 && 0 <= j < 3 ==> stats[i][j] == CellToken(height, width, i, j, ocr, classify)
    ensures forall i: nat, j: nat :: (i, j) in consulted <==>
      i < 5 && j < 3 && ApplyTable(Corrections, ocr(CellRegion(height, width, i, j))) in {"6", "9"}
  {
    stats := [];
    consulted := {};
    for i := 0 to 5
      invariant |stats| == i
      invariant forall a :: 0 <= a < i ==> |stats[a]| == 3
      invariant forall a, b :: 0 <= a < i && 0 <= b < 3 ==> stats[a][b] == CellToken(height, width, a, b, ocr, classify)
      invariant forall a: nat, b: nat :: (a, b) in consulted <==>
        a < i && b < 3 && ApplyTable(Corrections, ocr(CellRegion(height, width, a, b))) in {"6", "9"}
    {
      var rowStats := [];
      for j := 0 to 3
        invariant |rowStats| == j
        invariant forall b :: 0 <= b < j ==> rowStats[b] == CellToken(height, width, i, b, ocr, classify)
        invariant forall a: nat, b: nat :: (a, b) in consulted <==>
          ((a < i && b < 3) || (a == i && b < j)) && ApplyTable(Corrections, ocr(CellRegion(height, width, a, b))) in {"6", "9"}
      {
        var charText, asked := ReadCell(height, width, i, j, ocr, classify);
        if asked {
          consulted := consulted + {(i, j)};
        }
        rowStats := rowStats + [charText];
      }
      stats := stats + [rowStats];
    }
  }
}
