/**
 * `saveTestCases`: validates the case list, cleans the target directory,
 * and writes case `i` (counting from 1) to `input_<i>.txt` and
 * `output_<i>.txt` under the chosen base folder.
 */
module FileHandler {
  import opened Wrappers
  import opened Text

  /** One example: the text of the arguments and the text of the expected result. */
  datatype TestCase = TestCase(input: string, output: string)

  /** Where a file lands: the base folder, the cleaned directory under it, and the file name. */
  datatype Location = Location(base: string, dir: string, name: string)

  const NoCasesMessage := "No valid test cases provided"
  const NoFolderMessage := "No folder selected to save test cases"
  const FailurePrefix := "Failed to save test cases: "

  // ---------------------------------------------------------------- directory cleanup

  /** `directory.replace(/^\/+|\/+$/g, '')`: every leading and every trailing `/` removed. */
  function CleanDirectory(directory: string): (r: string)
    ensures |r| <= |directory|
    ensures AllIn(directory, Slash) ==> r == ""
  {
    Trim(directory, Slash)
  }

  /** Cleaning removes exactly the outer runs of slashes and leaves the interior as it is. */
  lemma CleanDirectoryExact(a: string, m: string, b: string)
    requires AllIn(a, Slash) && AllIn(b, Slash)
    requires m == "" || (m[0] != '/' && m[|m| - 1] != '/')
    ensures CleanDirectory(a + m + b) == m
  {
    var d := a + m + b;
    var r := Trim(d, Slash);
    if m == "" {
      assert d == a + b;
      SpanExact(d, 0, |d|, Slash);
    } else {
      assert d[|a|] == m[0] && d[|a| + |m| - 1] == m[|m| - 1];
      assert d[..|a|] == a;
      SpanExact(d, 0, |a|, Slash);
      assert d[|a| + |m|..] == b;
      assert d[|a|..|a| + |m|] == m;
    }
  }

  /** Cleaning twice is cleaning once. */
  lemma CleanDirectoryIdempotent(directory: string)
    ensures CleanDirectory(CleanDirectory(directory)) == CleanDirectory(directory)
  {
    TrimIdempotent(directory, Slash);
  }

  /** A cleaned directory neither starts nor ends with `/`. */
  lemma CleanDirectoryBare(directory: string)
    ensures var r := CleanDirectory(directory);
            r == "" || (r[0] != '/' && r[|r| - 1] != '/')
  {
  }

  // ---------------------------------------------------------------- file names

  /** The input file of case `k`, counting from 1. */
  function InputName(k: nat): string
  {
    "input_" + NatToString(k) + ".txt"
  }

  /** The output file of case `k`, counting from 1. */
  function OutputName(k: nat): string
  {
    "output_" + NatToString(k) + ".txt"
  }

  /** The number inside a name built from `head` and `.txt` can be read back. */
  lemma NameCancel(head: string, x: string, y: string)
    requires head + x + ".txt" == head + y + ".txt"
    ensures x == y
  {
    var s := head + x + ".txt";
    assert s[|head|..|s| - 4] == x;
    assert (head + y + ".txt")[|head|..|s| - 4] == y;
  }

  /** No input name is an output name, and each kind of name determines its case number. */
  lemma FixtureNamesDistinct(k: nat, m: nat)
    ensures InputName(k) != OutputName(m)
    ensures InputName(k) == InputName(m) <==> k == m
    ensures OutputName(k) == OutputName(m) <==> k == m
  {
    assert InputName(k)[0] == 'i' && OutputName(m)[0] == 'o';
    if InputName(k) == InputName(m) {
      NameCancel("input_", NatToString(k), NatToString(m));
      NatToStringInjective(k, m);
    }
    if OutputName(k) == OutputName(m) {
      NameCancel("output_", NatToString(k), NatToString(m));
      NatToStringInjective(k, m);
    }
  }

  // ---------------------------------------------------------------- the writes

  /** The files after the cases have been written, the last case written last. */
  function Written(files: map<Location, string>, base: string, dir: string, cases: seq<TestCase>): map<Location, string>
  {
    if cases == [] then files
    else
      var n := |cases|;
      Written(files, base, dir, cases[..n - 1])
        [Location(base, dir, InputName(n)) := cases[n - 1].input]
        [Location(base, dir, OutputName(n)) := cases[n - 1].output]
  }

  /** Case `k` (from 1) can be read back from its two files, with exactly the case's text. */
  lemma {:induction false} WrittenContents(files: map<Location, string>, base: string, dir: string, cases: seq<TestCase>, k: nat)
    requires 1 <= k <= |cases|
    ensures Location(base, dir, InputName(k)) in Written(files, base, dir, cases)
    ensures Location(base, dir, OutputName(k)) in Written(files, base, dir, cases)
    ensures Written(files, base, dir, cases)[Location(base, dir, InputName(k))] == cases[k - 1].input
    ensures Written(files, base, dir, cases)[Location(base, dir, OutputName(k))] == cases[k - 1].output
  {
    var n := |cases|;
    FixtureNamesDistinct(k, n);
    FixtureNamesDistinct(n, k);
    if k < n {
      WrittenContents(files, base, dir, cases[..n - 1], k);
    }
  }

  /** A location that is not one of the `2n` fixture files keeps what it held. */
  lemma {:induction false} WrittenElsewhere(files: map<Location, string>, base: string, dir: string, cases: seq<TestCase>, loc: Location)
    requires forall k | 1 <= k <= |cases| :: loc != Location(base, dir, InputName(k)) && loc != Location(base, dir, OutputName(k))
    ensures loc in Written(files, base, dir, cases) <==> loc in files
    ensures loc in files ==> Written(files, base, dir, cases)[loc] == files[loc]
  {
    if cases != [] {
      WrittenElsewhere(files, base, dir, cases[..|cases| - 1], loc);
    }
  }

  /** The written locations are the old ones and the pairs numbered 1 to `n`. */
  lemma {:induction false} WrittenKeys(files: map<Location, string>, base: string, dir: string, cases: seq<TestCase>)
    ensures Written(files, base, dir, cases).Keys == files.Keys + FixtureLocations(base, dir, |cases|)
  {
    if cases != [] {
      WrittenKeys(files, base, dir, cases[..|cases| - 1]);
    }
  }

  /** Cases 1 to `n` have `2n` distinct files. */
  lemma {:induction false} FixtureLocationsCount(base: string, dir: string, n: nat)
    ensures |FixtureLocations(base, dir, n)| == 2 * n
  {
    if n > 0 {
      FixtureLocationsCount(base, dir, n - 1);
      var earlier := FixtureLocations(base, dir, n - 1);
      var i := Location(base, dir, InputName(n));
      var o := Location(base, dir, OutputName(n));
      FixtureNamesDistinct(n, n);
      LaterNotEarlier(base, dir, n - 1, n);
      assert i != o && i !in earlier && o !in earlier;
      assert |earlier + {i}| == |earlier| + 1;
    }
  }

  /** The files of case `n` are not among those of cases 1 to `m` when `m < n`. */
  lemma {:induction false} LaterNotEarlier(base: string, dir: string, m: nat, n: nat)
    requires m < n
    ensures Location(base, dir, InputName(n)) !in FixtureLocations(base, dir, m)
    ensures Location(base, dir, OutputName(n)) !in FixtureLocations(base, dir, m)
  {
    if m > 0 {
      LaterNotEarlier(base, dir, m - 1, n);
      FixtureNamesDistinct(m, n);
      FixtureNamesDistinct(n, m);
    }
  }

  /** The input and output locations of cases 1 to `n`. */
  function FixtureLocations(base: string, dir: string, n: nat): set<Location>
  {
    if n == 0 then {}
    else FixtureLocations(base, dir, n - 1) + {Location(base, dir, InputName(n)), Location(base, dir, OutputName(n))}
  }

  /** The folder the files are saved under: the files written so far, keyed by where they are. */
  class FixtureStore {
    var files: map<Location, string>

    constructor(initial: map<Location, string>)
      ensures files == initial
    {
      files := initial;
    }

    /**
     * `saveTestCases(testCases, directory)`.  `base` is what `getBaseUri`
     * settles on: None when no workspace folder or open file is at hand and
     * the user picks no folder.  On success the count of saved cases is
     * returned, the number the success message reports.
     */
    method SaveTestCases(cases: seq<TestCase>, directory: string, base: Option<string>) returns (r: Result<nat>)
      modifies this
      ensures cases == [] ==> r == Err(NoCasesMessage) && files == old(files)
      ensures cases != [] && base.None? ==> r == Err(FailurePrefix + NoFolderMessage) && files == old(files)
      ensures cases != [] && base.Some? ==>
                r == Ok(|cases|) && files == Written(old(files), base.value, CleanDirectory(directory), cases)
    {
      if cases == [] {
        return Err(NoCasesMessage);
      }
      if base.None? {
        return Err(FailurePrefix + NoFolderMessage);
      }
      var dir := CleanDirectory(directory);
      var i := 0;
      while i < |cases|
        invariant 0 <= i <= |cases|
        invariant files == Written(old(files), base.value, dir, cases[..i])
      {
        assert cases[..i + 1][..i] == cases[..i];
        files := files[Location(base.value, dir, InputName(i + 1)) := cases[i].input];
        files := files[Location(base.value, dir, OutputName(i + 1)) := cases[i].output];
        i := i + 1;
      }
      assert cases[..i] == cases;
      r := Ok(|cases|);
    }
  }
}
