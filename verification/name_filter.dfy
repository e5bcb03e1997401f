/**
 Which names the extractor keeps. A file is moved when its name ends with
 `.py` and `re.match` of the exclusion pattern `(?:__init__\.py)|(?:test_.+\.py)`
 fails; `re.match` anchors the pattern at the start of the name only, and `.`
 matches any character except a newline. A directory is pruned when its name
 starts with `test` (not `test_`).
 */
module NameFilter {

  import opened Strings

  const InitModule := "__init__.py"
  const TestModulePrefix := "test_"
  const PythonSuffix := ".py"
  const TestDirPrefix := "test"

  /** The matcher for `.*\.py` at the start of `s`: either `.py` comes now, or
      one non-newline character is consumed and the match goes on. */
  function AnyThenPy(s: string): bool
    decreases |s|
  {
    StartsWith(s, PythonSuffix) || (|s| > 0 && s[0] != '\n' && AnyThenPy(s[1..]))
  }

  /** `.py` starts at position `k` and no newline comes before it. */
  predicate PyAfterLine(s: string, k: nat) {
    k + 3 <= |s| && s[k..k + 3] == PythonSuffix && '\n' !in s[..k]
  }

  /** The matcher accepts exactly the strings the regular expression `.*\.py`
      matches at their start. */
  lemma {:induction false} AnyThenPyMatchesRegex(s: string)
    ensures AnyThenPy(s) <==> exists k: nat :: PyAfterLine(s, k)
    decreases |s|
  {
    if AnyThenPy(s) {
      if StartsWith(s, PythonSuffix) {
        assert PyAfterLine(s, 0);
      } else {
        AnyThenPyMatchesRegex(s[1..]);
        var k: nat :| PyAfterLine(s[1..], k);
        assert s[k + 1..k + 4] == s[1..][k..k + 3];
        assert s[..k + 1] == [s[0]] + s[1..][..k];
        assert PyAfterLine(s, k + 1);
      }
    }
    if exists k: nat :: PyAfterLine(s, k) {
      var k: nat :| PyAfterLine(s, k);
      if k == 0 {
        assert StartsWith(s, PythonSuffix);
      } else {
        assert s[0] in s[..k];
        assert s[1..][k - 1..k + 2] == s[k..k + 3];
        assert s[1..][..k - 1] == s[1..k];
        assert forall c :: c in s[1..k] ==> c in s[..k];
        assert PyAfterLine(s[1..], k - 1);
        AnyThenPyMatchesRegex(s[1..]);
      }
    }
  }

  /** `re.match(EXCLUDED_PATTERN, name) is not None`. */
  predicate ExcludedMatch(name: string) {
    || StartsWith(name, InitModule)
    || (StartsWith(name, TestModulePrefix) && |name| > 5 && name[5] != '\n' && AnyThenPy(name[6..]))
  }

  /** The exclusion pattern read as a regular expression: `__init__.py` at the
      start, or `test_`, at least one non-newline character, then `.py`. */
  ghost predicate ExcludedByPattern(name: string) {
    || StartsWith(name, InitModule)
    || (StartsWith(name, TestModulePrefix) &&
        exists j: nat :: 6 <= j && j + 3 <= |name| && '\n' !in name[5..j] && name[j..j + 3] == PythonSuffix)
  }

  lemma ExcludedMatchIsPattern(name: string)
    ensures ExcludedMatch(name) <==> ExcludedByPattern(name)
  {
    if StartsWith(name, TestModulePrefix) && |name| > 5 {
      var rest := name[6..];
      AnyThenPyMatchesRegex(rest);
      if name[5] != '\n' && AnyThenPy(rest) {
        var k: nat :| PyAfterLine(rest, k);
        assert name[6 + k..6 + k + 3] == rest[k..k + 3];
        assert name[5..6 + k] == [name[5]] + rest[..k];
      }
      if exists j: nat :: 6 <= j && j + 3 <= |name| && '\n' !in name[5..j] && name[j..j + 3] == PythonSuffix {
        var j: nat :| 6 <= j && j + 3 <= |name| && '\n' !in name[5..j] && name[j..j + 3] == PythonSuffix;
        assert name[5] in name[5..j];
        assert rest[j - 6..j - 3] == name[j..j + 3];
        assert rest[..j - 6] == name[6..j];
        assert forall c :: c in name[6..j] ==> c in name[5..j];
        assert PyAfterLine(rest, j - 6);
      }
    }
  }

  /** The file filter of the extraction walk: a `.py` file the pattern does not
      exclude. */
  predicate IsSourceCandidate(name: string) {
    EndsWith(name, PythonSuffix) && !ExcludedMatch(name)
  }

  /** The directory filter of the extraction walk. */
  predicate IsTestDir(name: string) {
    StartsWith(name, TestDirPrefix)
  }

  /** Every one-line test module name of the form `test_<something>.py` is
      excluded; the shortest such name needs one character after `test_`. */
  lemma TestModulesExcluded(name: string)
    requires StartsWith(name, TestModulePrefix) && EndsWith(name, PythonSuffix)
    requires |name| >= 9 && '\n' !in name
    ensures !IsSourceCandidate(name)
  {
    var j := |name| - 3;
    assert name[j..j + 3] == PythonSuffix;
    assert forall c :: c in name[5..j] ==> c in name;
    ExcludedMatchIsPattern(name);
  }

  /** `test_.py` is too short for `test_.+\.py`, so it is kept; a newline
      between `test_` and `.py` also defeats the pattern. */
  lemma {:induction false} FilterEdgeCases()
    ensures IsSourceCandidate("test_.py")
    ensures IsSourceCandidate("test_a\n.py")
    ensures !IsSourceCandidate("__init__.py") && !IsSourceCandidate("__init__.py.py")
    ensures IsSourceCandidate("test.py") && IsSourceCandidate("conftest.py")
    ensures IsTestDir("tests") && IsTestDir("testing") && !IsTestDir("pytest")
  {
    assert !AnyThenPy("py") by {
      assert !AnyThenPy("y") by { assert !AnyThenPy(""); }
    }
    assert "test_.py"[6..] == "py";
    assert "test_a\n.py"[6..] == "\n.py";
    assert !AnyThenPy("\n.py") by { assert "\n.py"[..3][0] != PythonSuffix[0]; }
    assert "test_a\n.py"[..5] == TestModulePrefix;
    assert "test.py"[..4] == "test";
    assert "conftest.py"[8..] == PythonSuffix;
    assert "conftest.py"[..5][0] != TestModulePrefix[0];
    assert "conftest.py"[..11][0] != InitModule[0];
    assert "pytest"[..4][0] != TestDirPrefix[0];
    assert "__init__.py.py"[..11] == InitModule;
  }
}
