/**
 * The solver's output: the length of the chosen path on the first line, then
 * the labyrinth with every cell of the path replaced by the decimal index of
 * that cell in the path.
 */
module LabyrinthOutput {
  import opened Labyrinth

  predicate IsDigit(ch: char) {
    '0' <= ch <= '9'
  }

  function DigitChar(d: nat): (ch: char)
    requires d < 10
    ensures IsDigit(ch) && ch as int - '0' as int == d
  {
    ('0' as int + d) as char
  }

  function DigitValue(ch: char): nat
    requires IsDigit(ch)
  {
    ch as int - '0' as int
  }

  /** The decimal text of a non-negative integer, as std::to_string writes it. */
  function DecimalString(n: nat): (s: string)
    ensures |s| >= 1
    ensures forall i :: 0 <= i < |s| ==> IsDigit(s[i])
    ensures |s| > 1 ==> s[0] != '0'
  {
    if n < 10 then [DigitChar(n)] else DecimalString(n / 10) + [DigitChar(n % 10)]
  }

  /** Reads decimal digits back, most significant first. */
  function ParseDecimal(s: string): nat
    requires forall i :: 0 <= i < |s| ==> IsDigit(s[i])
  {
    if s == [] then 0
    else 10 * ParseDecimal(s[..|s| - 1]) + DigitValue(s[|s| - 1])
  }

  /** Reading the written index gives the index back. */
  lemma {:induction false} DecimalRoundTrip(n: nat)
    ensures ParseDecimal(DecimalString(n)) == n
  {
    var s := DecimalString(n);
    if n >= 10 {
      DecimalRoundTrip(n / 10);
      assert s[..|s| - 1] == DecimalString(n / 10);
    }
  }

  /** Different indices are written differently. */
  lemma DecimalInjective(a: nat, b: nat)
    requires DecimalString(a) == DecimalString(b)
    ensures a == b
  {
    DecimalRoundTrip(a);
    DecimalRoundTrip(b);
  }

  /**
   * The text of cell (r, c) after the rewrite loop has written the indices of
   * path, one after the other; a later index overwrites an earlier one.
   */
  function Label(lab: Grid, path: seq<Node>, r: int, c: int): string
    requires 0 <= r < |lab| && 0 <= c < |lab[r]|
  {
    if path == [] then [lab[r][c]]
    else if path[|path| - 1] == (r, c) then DecimalString(|path| - 1)
    else Label(lab, path[..|path| - 1], r, c)
  }

  /**
   * On a path with no repeated cell, the i-th cell reads i and every cell off
   * the path keeps its character.
   */
  lemma {:induction false} LabelSpec(lab: Grid, path: seq<Node>, r: int, c: int)
    requires 0 <= r < |lab| && 0 <= c < |lab[r]|
    requires Distinct(path)
    ensures (r, c) !in path ==> Label(lab, path, r, c) == [lab[r][c]]
    ensures forall i :: 0 <= i < |path| && path[i] == (r, c) ==> Label(lab, path, r, c) == DecimalString(i)
  {
    if path != [] {
      var init := path[..|path| - 1];
      assert Distinct(init);
      LabelSpec(lab, init, r, c);
      forall i | 0 <= i < |path| && path[i] == (r, c) ensures Label(lab, path, r, c) == DecimalString(i) {
        if i < |path| - 1 {
          assert init[i] == path[i];
        }
      }
    }
  }

  /** The words of a row written one after the other. */
  function Join(words: seq<string>): string {
    if words == [] then [] else Join(words[..|words| - 1]) + words[|words| - 1]
  }

  /** The cells of row r after the rewrite. */
  function RowLabels(lab: Grid, path: seq<Node>, r: int): (row: seq<string>)
    requires 0 <= r < |lab|
    ensures |row| == |lab[r]|
  {
    seq(|lab[r]|, c requires 0 <= c < |lab[r]| => Label(lab, path, r, c))
  }

  /** A row that the path does not cross is written back unchanged. */
  lemma UntouchedRow(lab: Grid, path: seq<Node>, r: int)
    requires 0 <= r < |lab| && Distinct(path)
    requires forall i :: 0 <= i < |path| ==> path[i].0 != r
    ensures Join(RowLabels(lab, path, r)) == lab[r]
  {
    var row := RowLabels(lab, path, r);
    forall c | 0 <= c < |lab[r]| ensures row[c] == [lab[r][c]] {
      LabelSpec(lab, path, r, c);
    }
    JoinOfCharacters(lab[r], row);
  }

  /** Joining one-character words spells the characters. */
  lemma {:induction false} JoinOfCharacters(text: string, words: seq<string>)
    requires |words| == |text|
    requires forall c :: 0 <= c < |text| ==> words[c] == [text[c]]
    ensures Join(words) == text
  {
    if words != [] {
      var n := |words| - 1;
      JoinOfCharacters(text[..n], words[..n]);
      assert text == text[..n] + [text[n]];
    }
  }

  /**
   * Builds the one-character cell texts, writes the index of every path
   * position into its cell, and emits the path length followed by the rows.
   */
  method WriteOutput(lab: Grid, path: seq<Node>) returns (lines: seq<string>)
    requires forall i :: 0 <= i < |path| ==> InBounds(lab, path[i])
    ensures |lines| == |lab| + 1
    ensures lines[0] == DecimalString(|path|)
    ensures forall r :: 0 <= r < |lab| ==> lines[r + 1] == Join(RowLabels(lab, path, r))
  {
    var stringRepr: seq<seq<string>> := [];
    var r := 0;
    while r < |lab|
      invariant 0 <= r <= |lab| && |stringRepr| == r
      invariant forall k :: 0 <= k < r ==> stringRepr[k] == RowLabels(lab, [], k)
    {
      var rowStr: seq<string> := [];
      var c := 0;
      while c < |lab[r]|
        invariant 0 <= c <= |lab[r]| && |rowStr| == c
        invariant forall k :: 0 <= k < c ==> rowStr[k] == [lab[r][k]]
      {
        rowStr := rowStr + [[lab[r][c]]];
        c := c + 1;
      }
      assert rowStr == RowLabels(lab, [], r);
      stringRepr := stringRepr + [rowStr];
      r := r + 1;
    }

    var index := 0;
    while index < |path|
      invariant 0 <= index <= |path| && |stringRepr| == |lab|
      invariant forall k :: 0 <= k < |lab| ==> stringRepr[k] == RowLabels(lab, path[..index], k)
    {
      var (row, col) := path[index];
      stringRepr := stringRepr[row := stringRepr[row][col := DecimalString(index)]];
      RelabelStep(lab, path, index);
      index := index + 1;
    }
    assert path[..|path|] == path;

    lines := [DecimalString(|path|)];
    r := 0;
    while r < |stringRepr|
      invariant 0 <= r <= |stringRepr| && |lines| == r + 1
      invariant lines[0] == DecimalString(|path|)
      invariant forall k :: 0 <= k < r ==> lines[k + 1] == Join(stringRepr[k])
    {
      var line := stringRepr[r];
      var text := "";
      var w := 0;
      while w < |line|
        invariant 0 <= w <= |line|
        invariant text == Join(line[..w])
      {
        assert line[..w + 1][..w] == line[..w];
        text := text + line[w];
        w := w + 1;
      }
      assert line[..|line|] == line;
      lines := lines + [text];
      r := r + 1;
    }
  }

  /** Writing index i into the cell of path[i] extends the relabelling by one position. */
  lemma RelabelStep(lab: Grid, path: seq<Node>, i: int)
    requires 0 <= i < |path| && InBounds(lab, path[i])
    ensures forall r, c :: 0 <= r < |lab| && 0 <= c < |lab[r]| ==>
              Label(lab, path[..i + 1], r, c) ==
              if (r, c) == path[i] then DecimalString(i) else Label(lab, path[..i], r, c)
  {
    assert path[..i + 1][..i] == path[..i];
  }
}
