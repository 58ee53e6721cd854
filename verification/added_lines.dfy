/**
 * The net-lines-added counter of a document-change event (`countAddedLines`
 * in src/utils.ts): each change contributes the newlines it inserts minus the
 * lines its replaced range spans, floored at zero, and the contributions are summed.
 */
module AddedLines {
  import opened Text
  import opened Seqs

  /** A zero-based line and character offset in a document. */
  datatype Position = Position(line: nat, character: nat)

  /** The replaced part of the document, from `start` to `end`. */
  datatype Range = Range(start: Position, end: Position)

  /** One entry of an event's `contentChanges`: `range` is replaced by `text`. */
  datatype TextChange = TextChange(range: Range, text: string)

  /** Newlines inserted by `text`; only `'\n'` is counted (the regular expression `/\n/g`). */
  function NewlineCount(text: string): (n: nat)
    ensures n <= |text|
    ensures n == 0 <==> '\n' !in text
  {
    CountZeroIff(text, '\n');
    Count(text, '\n')
  }

  /** Lines spanned by the replaced range: how many line breaks it crosses. */
  function RangeLineCount(r: Range): (n: int)
    ensures n == 0 <==> r.start.line == r.end.line
    ensures n >= 0 <==> r.start.line <= r.end.line
    ensures r.start.line + n == r.end.line
  {
    r.end.line - r.start.line
  }

  /** What one change adds to the total: its net line gain when positive, else nothing. */
  function Contribution(c: TextChange): (n: nat)
    ensures n == 0 <==> NewlineCount(c.text) <= RangeLineCount(c.range)
    ensures n > 0 ==> n == NewlineCount(c.text) - RangeLineCount(c.range)
  {
    var net := NewlineCount(c.text) - RangeLineCount(c.range);
    if net > 0 then net else 0
  }

  /** Reference definition: the sum of the contributions of all changes. */
  function TotalAdded(changes: seq<TextChange>): nat
  {
    if |changes| == 0 then 0
    else TotalAdded(changes[..|changes| - 1]) + Contribution(changes[|changes| - 1])
  }

  /** The loop of `countAddedLines`, computing the sum of the per-change contributions. */
  method CountAddedLines(changes: seq<TextChange>) returns (addedLines: int)
    ensures addedLines >= 0
    ensures addedLines == TotalAdded(changes)
  {
    addedLines := 0;
    var i := 0;
    while i < |changes|
      invariant 0 <= i <= |changes|
      invariant addedLines == TotalAdded(changes[..i])
    {
      var change := changes[i];
      var newLineCount := NewlineCount(change.text);
      var rangeLineCount := change.range.end.line - change.range.start.line;
      var netLinesAdded := newLineCount - rangeLineCount;
      if netLinesAdded > 0 {
        addedLines := addedLines + netLinesAdded;
      }
      assert changes[..i + 1][..i] == changes[..i];
      i := i + 1;
    }
    assert changes[..|changes|] == changes;
  }

  /** The total over a concatenation is the sum of the totals. */
  lemma {:induction false} TotalAddedAppend(a: seq<TextChange>, b: seq<TextChange>)
    ensures TotalAdded(a + b) == TotalAdded(a) + TotalAdded(b)
  {
    if |b| == 0 {
      assert a + b == a;
    } else {
      assert (a + b)[..|a + b| - 1] == a + b[..|b| - 1];
      assert (a + b)[|a + b| - 1] == b[|b| - 1];
      TotalAddedAppend(a, b[..|b| - 1]);
    }
  }

  /** The total is zero exactly when no change inserts more newlines than its range spans. */
  lemma {:induction false} TotalZeroIff(changes: seq<TextChange>)
    ensures TotalAdded(changes) == 0 <==>
      forall k :: 0 <= k < |changes| ==> NewlineCount(changes[k].text) <= RangeLineCount(changes[k].range)
  {
    if |changes| > 0 {
      var init := changes[..|changes| - 1];
      TotalZeroIff(init);
      forall k | 0 <= k < |init| ensures init[k] == changes[k] {}
    }
  }

  /**
   * Appending a change never lowers the total, and a change that deletes at
   * least as many lines as it inserts leaves it unchanged: a net-deleting change
   * cannot cancel lines added by other changes of the same event.
   */
  lemma AppendNeverDecreases(changes: seq<TextChange>, c: TextChange)
    ensures TotalAdded(changes + [c]) >= TotalAdded(changes)
    ensures NewlineCount(c.text) <= RangeLineCount(c.range) ==> TotalAdded(changes + [c]) == TotalAdded(changes)
  {
    TotalAddedAppend(changes, [c]);
    assert [c][..0] == [];
  }

  /** Concatenating two events' changes never loses the lines either of them adds. */
  lemma NoCancellation(a: seq<TextChange>, b: seq<TextChange>)
    ensures TotalAdded(a + b) >= TotalAdded(a)
    ensures TotalAdded(a + b) >= TotalAdded(b)
    ensures TotalAdded(b) == 0 ==> TotalAdded(a + b) == TotalAdded(a)
  {
    TotalAddedAppend(a, b);
  }

  /** Taking out the change at index `j` subtracts exactly its contribution. */
  lemma TotalAddedRemove(ds: seq<TextChange>, j: nat)
    requires j < |ds|
    ensures TotalAdded(ds) == Contribution(ds[j]) + TotalAdded(ds[..j] + ds[j + 1..])
  {
    var left, x, right := ds[..j], ds[j], ds[j + 1..];
    SplitAround(ds, j);
    TotalAddedAppend(left, [x] + right);
    TotalAddedAppend([x], right);
    TotalAddedSingleton(x);
    TotalAddedAppend(left, right);
  }

  /** A single change contributes exactly its own share. */
  lemma TotalAddedSingleton(c: TextChange)
    ensures TotalAdded([c]) == Contribution(c)
  {
    assert [c][..0] == [];
  }

  /** The total is the first change's contribution plus the total of the rest. */
  lemma TotalAddedFirst(cs: seq<TextChange>)
    requires |cs| > 0
    ensures TotalAdded(cs) == Contribution(cs[0]) + TotalAdded(cs[1..])
  {
    SplitAround(cs, 0);
    TotalAddedAppend([cs[0]], cs[1..]);
    TotalAddedSingleton(cs[0]);
  }

  /** The total does not depend on the order in which the changes are listed. */
  lemma {:induction false} TotalAddedOrderIndependent(cs: seq<TextChange>, ds: seq<TextChange>)
    requires multiset(cs) == multiset(ds)
    ensures TotalAdded(cs) == TotalAdded(ds)
    decreases |cs|
  {
    if |cs| == 0 {
      assert |ds| == |multiset(ds)| == 0;
    } else {
      var j := FindInPermutation(cs, ds);
      TotalAddedOrderIndependent(cs[1..], ds[..j] + ds[j + 1..]);
      TotalAddedFirst(cs);
      TotalAddedRemove(ds, j);
    }
  }

  /**
   * Only line feeds count: a carriage return inserted anywhere adds nothing,
   * and a CR LF pair counts as exactly one newline.
   */
  lemma OnlyLineFeedCounts(a: string, b: string)
    ensures NewlineCount(a + "\r" + b) == NewlineCount(a + b)
    ensures NewlineCount(a + "\r\n" + b) == NewlineCount(a + b) + 1
  {
    CountAppend(a, "\r", '\n');
    CountAppend(a + "\r", b, '\n');
    CountAppend(a, "\r\n", '\n');
    CountAppend(a + "\r\n", b, '\n');
    CountAppend(a, b, '\n');
  }

  /** The newline count is the number of `'\n'` characters, wherever they are in the text. */
  lemma NewlineCountIsMultiplicity(text: string)
    ensures NewlineCount(text) == multiset(text)['\n']
  {
    CountIsMultiplicity(text, '\n');
  }
}
