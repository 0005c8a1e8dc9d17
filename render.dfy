/**
 * What `main` prints for the commands a query returns: either their
 * positions, one per line (`NONE` when there are none), or the commands
 * themselves joined by a NUL and a newline.
 */
module Render {
  import opened Wrappers
  import opened Text

  /** `0\n1\n…(k-1)\n`. */
  function IndexLines(k: nat): string
  {
    if k == 0 then [] else IndexLines(k - 1) + Decimal(k - 1) + "\n"
  }

  /** The indices output for `k` results. */
  function IndexListing(k: nat): string
  {
    if k == 0 then "NONE\n" else IndexLines(k)
  }

  /** The decimal numerals of 0 up to `k - 1`. */
  function Numerals(k: nat): (r: seq<string>)
    ensures |r| == k
  {
    seq(k, i requires 0 <= i < k => Decimal(i))
  }

  /**
   * The indices branch of `main`: one line per result, counted as they go
   * past, and `NONE` if the count stayed at zero.
   */
  method PrintIndices(results: seq<string>) returns (out: string)
    ensures out == IndexListing(|results|)
  {
    out := [];
    var n := 0;
    for i := 0 to |results|
      invariant n == i && out == IndexLines(i)
    {
      out := out + Decimal(i) + "\n";
      n := n + 1;
    }
    if n == 0 {
      out := out + "NONE\n";
    }
  }

  /** Line `i` of `IndexLines(k)` is the numeral `i`, and nothing follows the final newline. */
  lemma {:induction false} IndexLinesSplit(k: nat)
    requires k > 0
    ensures Split(IndexLines(k), '\n') == Numerals(k) + [""]
  {
    var prev := IndexLines(k - 1);
    var d := Decimal(k - 1);
    assert '\n' !in d by { DigitsNoNewline(d); }
    assert Split(prev + d, '\n') == Numerals(k - 1) + [d] by {
      if k == 1 {
        assert prev + d == d;
        SplitNoSep(d, '\n');
      } else {
        IndexLinesSplit(k - 1);
        SplitExtendLast(prev, '\n', d);
        var p := Numerals(k - 1) + [""];
        assert p[..|p| - 1] == Numerals(k - 1);
        assert p[|p| - 1] + d == d;
      }
    }
    assert IndexLines(k) == prev + d + ['\n'] + [];
    SplitConcat(prev + d, '\n', []);
    assert Numerals(k - 1) + [d] == Numerals(k);
  }

  /**
   * With results, line `i` of the listing is the numeral `i`, with nothing
   * after the final newline; without, the listing is the single line `NONE`.
   */
  lemma IndexListingLines(k: nat)
    ensures k == 0 ==> IndexListing(k) == "NONE\n"
    ensures k > 0 ==> Split(IndexListing(k), '\n') == Numerals(k) + [""]
  {
    if k > 0 {
      IndexLinesSplit(k);
    }
  }

  lemma DigitsNoNewline(d: string)
    requires AllDigits(d)
    ensures '\n' !in d
  {
    forall k | 0 <= k < |d|
      ensures d[k] != '\n'
    {
      assert IsDigit(d[k]);
    }
  }

  /** Every line of the listing reads back as its own position. */
  lemma IndexLinesReadBack(k: nat, i: nat)
    requires 0 < k <= U64_LIMIT && i < k
    ensures var lines := Split(IndexListing(k), '\n');
      |lines| == k + 1 && ParseU64(lines[i]) == Some(i)
  {
    IndexListingLines(k);
    DecimalRoundTrip(i);
  }

  /** The default branch of `main`: the commands joined by NUL and newline, then `println!`'s newline. */
  function CommandList(results: seq<string>): string
  {
    Join(results, "\U{0}\n") + "\n"
  }

  /** The pieces between NULs when `items` are joined by NUL and newline after `pre`. */
  lemma {:induction false} JoinedPieces(pre: string, items: seq<string>)
    requires |items| >= 1 && '\U{0}' !in pre
    requires forall k :: 0 <= k < |items| ==> '\U{0}' !in items[k]
    ensures Split(pre + Join(items, "\U{0}\n"), '\U{0}') ==
      [pre + items[0]] + seq(|items| - 1, i requires 0 <= i < |items| - 1 => "\n" + items[i + 1])
    decreases |items|
  {
    var tail := seq(|items| - 1, i requires 0 <= i < |items| - 1 => "\n" + items[i + 1]);
    if |items| == 1 {
      SplitNoSep(pre + items[0], '\U{0}');
    } else {
      var rest := items[1..];
      JoinCons(items[0], rest, "\U{0}\n");
      assert items == [items[0]] + rest;
      assert pre + Join(items, "\U{0}\n") == (pre + items[0]) + ['\U{0}'] + ("\n" + Join(rest, "\U{0}\n"));
      SplitConcat(pre + items[0], '\U{0}', "\n" + Join(rest, "\U{0}\n"));
      SplitNoSep(pre + items[0], '\U{0}');
      JoinedPieces("\n", rest);
      assert ["\n" + rest[0]] + seq(|rest| - 1, i requires 0 <= i < |rest| - 1 => "\n" + rest[i + 1]) == tail;
    }
  }

  /**
   * The list output: a lone newline when there are no commands; otherwise
   * the commands, separated by NUL and newline with no separator after the
   * last, then the newline of `println!`. Cutting at the NULs gives back
   * every command, those after the first behind the separator's newline.
   */
  lemma CommandListShape(results: seq<string>)
    requires forall k :: 0 <= k < |results| ==> '\U{0}' !in results[k]
    ensures results == [] ==> CommandList(results) == "\n"
    ensures var out := CommandList(results);
      out[|out| - 1] == '\n' &&
      (results != [] ==>
        (Split(out[..|out| - 1], '\U{0}') ==
         [results[0]] + seq(|results| - 1, i requires 0 <= i < |results| - 1 => "\n" + results[i + 1])))
  {
    var out := CommandList(results);
    assert out[..|out| - 1] == Join(results, "\U{0}\n");
    if results != [] {
      JoinedPieces("", results);
      assert "" + Join(results, "\U{0}\n") == Join(results, "\U{0}\n");
      assert "" + results[0] == results[0];
    }
  }

  /** With no results the indices output is `NONE`; with two it is `0` and `1`, one per line. */
  lemma ExampleIndices()
    ensures IndexListing(0) == "NONE\n"
    ensures IndexListing(2) == "0\n1\n"
  {
    assert Decimal(0) == "0" && Decimal(1) == "1";
    assert IndexLines(1) == "0\n";
  }
}
