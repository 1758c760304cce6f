/**
 * The scan of a problem page's `<pre>` blocks: each block whose lines
 * include one starting with `Input:` and one starting with `Output:`
 * gives one example, taken from the first such lines with the marker
 * removed and the rest trimmed.
 */
module LeetCodeApi {
  import opened Wrappers
  import opened Text
  import opened FileHandler

  const InputMarker := "Input:"
  const OutputMarker := "Output:"

  /** `lines.find(line => line.startsWith(prefix))`. */
  function FindLine(lines: seq<string>, prefix: string): (r: Option<string>)
    ensures r.Some? ==> r.value in lines && StartsWith(r.value, prefix)
  {
    if lines == [] then None
    else if StartsWith(lines[0], prefix) then Some(lines[0])
    else FindLine(lines[1..], prefix)
  }

  /** `line.replace(marker, '').trim()`: the first occurrence of the marker removed, then JavaScript whitespace trimmed. */
  function StripMarker(line: string, marker: string): string
    requires marker != ""
  {
    Trim(ReplaceFirst(line, marker, ""), JsSpace)
  }

  /** The example a block gives, if any: its text is split on `\n` only. */
  function BlockExample(block: string): Option<TestCase>
  {
    LinesExample(Split(block, '\n'))
  }

  /** The example read from a block's lines, if any. */
  function LinesExample(lines: seq<string>): Option<TestCase>
  {
    var i := FindLine(lines, InputMarker);
    var o := FindLine(lines, OutputMarker);
    if i.Some? && o.Some? then Some(TestCase(StripMarker(i.value, InputMarker), StripMarker(o.value, OutputMarker)))
    else None
  }

  /** The examples of the blocks, in block order. */
  function ExamplesOf(blocks: seq<string>): (r: seq<TestCase>)
    ensures |r| <= |blocks|
  {
    if blocks == [] then []
    else
      var last := blocks[|blocks| - 1];
      ExamplesOf(blocks[..|blocks| - 1]) + (if BlockExample(last).Some? then [BlockExample(last).value] else [])
  }

  /** `preTags.forEach(...)`: the examples pushed onto `testCases`, one block at a time. */
  method ExtractExamples(blocks: seq<string>) returns (cases: seq<TestCase>)
    ensures cases == ExamplesOf(blocks)
    ensures |cases| <= |blocks|
  {
    cases := [];
    for i := 0 to |blocks|
      invariant cases == ExamplesOf(blocks[..i])
      invariant |cases| <= i
    {
      assert blocks[..i + 1][..i] == blocks[..i];
      var example := BlockExample(blocks[i]);
      if example.Some? {
        cases := cases + [example.value];
      }
    }
    assert blocks[..|blocks|] == blocks;
  }

  // ---------------------------------------------------------------- finding the line

  /** The line found is the first line that starts with the prefix. */
  lemma {:induction false} FindLineIndex(lines: seq<string>, prefix: string) returns (i: nat)
    requires FindLine(lines, prefix).Some?
    ensures i < |lines| && lines[i] == FindLine(lines, prefix).value && StartsWith(lines[i], prefix)
    ensures forall j | 0 <= j < i :: !StartsWith(lines[j], prefix)
  {
    if StartsWith(lines[0], prefix) {
      i := 0;
    } else {
      var k := FindLineIndex(lines[1..], prefix);
      i := k + 1;
    }
  }

  /** The first line that starts with the prefix is the one found. */
  lemma {:induction false} FindLineAt(lines: seq<string>, prefix: string, i: nat)
    requires i < |lines| && StartsWith(lines[i], prefix)
    requires forall j | 0 <= j < i :: !StartsWith(lines[j], prefix)
    ensures FindLine(lines, prefix) == Some(lines[i])
  {
    if i > 0 {
      FindLineAt(lines[1..], prefix, i - 1);
    }
  }

  /** Nothing is found exactly when no line starts with the prefix. */
  lemma {:induction false} FindLineNone(lines: seq<string>, prefix: string)
    ensures FindLine(lines, prefix).None? <==> forall j | 0 <= j < |lines| :: !StartsWith(lines[j], prefix)
  {
    if FindLine(lines, prefix).Some? {
      var i := FindLineIndex(lines, prefix);
    } else if lines != [] {
      FindLineNone(lines[1..], prefix);
      forall j | 1 <= j < |lines| ensures !StartsWith(lines[j], prefix) {
        assert lines[j] == lines[1..][j - 1];
      }
    }
  }

  /** On a line that starts with the marker, the marker removed is the marker's own occurrence. */
  lemma StripLeadingMarker(line: string, marker: string)
    requires marker != "" && StartsWith(line, marker)
    ensures StripMarker(line, marker) == Trim(line[|marker|..], JsSpace)
  {
    ReplaceFirstAt(line, marker, "", 0);
    assert line[..0] + "" + line[|marker|..] == line[|marker|..];
  }

  // ---------------------------------------------------------------- one block

  /** A block gives an example exactly when it has an `Input:` line and an `Output:` line. */
  lemma ExampleNeedsBoth(lines: seq<string>)
    ensures LinesExample(lines).Some? <==>
              (exists i | 0 <= i < |lines| :: StartsWith(lines[i], InputMarker)) &&
              (exists j | 0 <= j < |lines| :: StartsWith(lines[j], OutputMarker))
  {
    FindLineNone(lines, InputMarker);
    FindLineNone(lines, OutputMarker);
  }

  /** The example is read from the first `Input:` line and the first `Output:` line, markers dropped and the rest trimmed. */
  lemma ExampleFromFirstLines(lines: seq<string>, i: nat, j: nat)
    requires i < |lines| && StartsWith(lines[i], InputMarker)
    requires forall k | 0 <= k < i :: !StartsWith(lines[k], InputMarker)
    requires j < |lines| && StartsWith(lines[j], OutputMarker)
    requires forall k | 0 <= k < j :: !StartsWith(lines[k], OutputMarker)
    ensures LinesExample(lines) == Some(TestCase(Trim(lines[i][6..], JsSpace), Trim(lines[j][7..], JsSpace)))
  {
    FindLineAt(lines, InputMarker, i);
    FindLineAt(lines, OutputMarker, j);
    StripLeadingMarker(lines[i], InputMarker);
    StripLeadingMarker(lines[j], OutputMarker);
  }

  /** The usual shape: an `Input:` line, then an `Output:` line, then anything. */
  lemma TypicalBlock(input: string, output: string, rest: string)
    requires '\n' !in input && '\n' !in output
    ensures BlockExample(InputMarker + input + "\n" + OutputMarker + output + "\n" + rest) ==
            Some(TestCase(Trim(input, JsSpace), Trim(output, JsSpace)))
  {
    var first := InputMarker + input;
    var second := OutputMarker + output;
    var block := InputMarker + input + "\n" + OutputMarker + output + "\n" + rest;
    assert block == first + ['\n'] + (second + ['\n'] + rest);
    SplitPrefix(first, '\n', second + ['\n'] + rest);
    SplitPrefix(second, '\n', rest);
    var lines := Split(block, '\n');
    assert lines[0] == first && lines[1] == second;
    assert first[..6] == InputMarker && first[6..] == input;
    assert second[..7] == OutputMarker && second[7..] == output;
    assert first[0] == 'I';
    ExampleFromFirstLines(lines, 0, 1);
  }

  /** `startsWith` is literal: a marker after leading whitespace is not seen, so such a block gives nothing. */
  lemma IndentedInputIgnored(c: char, input: string, output: string)
    requires In(c, JsSpace) && c != '\n' && '\n' !in input && '\n' !in output
    ensures BlockExample([c] + InputMarker + input + "\n" + OutputMarker + output) == None
  {
    var first := [c] + InputMarker + input;
    var second := OutputMarker + output;
    var block := [c] + InputMarker + input + "\n" + OutputMarker + output;
    assert block == first + ['\n'] + second;
    assert '\n' !in first && '\n' !in second;
    SplitPrefix(first, '\n', second);
    SplitWhole(second, '\n');
    var lines := Split(block, '\n');
    assert lines == [first, second];
    assert first[0] == c && second[0] == 'O';
    FindLineNone(lines, InputMarker);
  }

  // ---------------------------------------------------------------- all blocks

  /** The blocks' examples are those of the first blocks followed by those of the rest: order is kept. */
  lemma {:induction false} ExamplesAppend(a: seq<string>, b: seq<string>)
    ensures ExamplesOf(a + b) == ExamplesOf(a) + ExamplesOf(b)
    decreases |b|
  {
    if b == [] {
      assert a + b == a;
    } else {
      var n := |b|;
      assert (a + b)[..|a + b| - 1] == a + b[..n - 1];
      assert (a + b)[|a + b| - 1] == b[n - 1];
      ExamplesAppend(a, b[..n - 1]);
    }
  }

  /** A block gives at most one example: its own, if it has one. */
  lemma OneBlock(block: string)
    ensures ExamplesOf([block]) == if BlockExample(block).Some? then [BlockExample(block).value] else []
  {
    assert [block][..0] == [];
  }
}
