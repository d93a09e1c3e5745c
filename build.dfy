/**
 * build.rs: `compile_resources` turns the Cargo package version into the
 * four-field Windows resource version and fills the three placeholders of the
 * resource-script template. Reading the template, the environment variables,
 * writing the script and compiling it stay outside the model: their results
 * are parameters.
 */
module Build {
  import opened Common

  /** Occurrences of `c` in `s`. */
  function Count(s: string, c: char): nat
  {
    if s == [] then 0 else (if s[0] == c then 1 else 0) + Count(s[1..], c)
  }

  /** `s.split(sep).collect::<Vec<_>>()` for a single-character separator. */
  function Split(s: string, sep: char): (parts: seq<string>)
    ensures |parts| == Count(s, sep) + 1
    ensures forall i :: 0 <= i < |parts| ==> sep !in parts[i]
  {
    if s == [] then [""]
    else
      var rest := Split(s[1..], sep);
      if s[0] == sep then [""] + rest else [[s[0]] + rest[0]] + rest[1..]
  }

  /** `parts.join(sep)`, the inverse of `Split`. */
  function JoinWith(parts: seq<string>, sep: char): string
    requires |parts| >= 1
  {
    if |parts| == 1 then parts[0] else parts[0] + ([sep] + JoinWith(parts[1..], sep))
  }

  /** Splitting and joining again gives back the original string. */
  lemma {:induction false} JoinSplit(s: string, sep: char)
    ensures JoinWith(Split(s, sep), sep) == s
  {
    if s != [] {
      var rest := Split(s[1..], sep);
      JoinSplit(s[1..], sep);
      if s[0] != sep {
        if |rest| == 1 {
          assert JoinWith(rest, sep) == rest[0];
        } else {
          assert JoinWith(rest, sep) == rest[0] + ([sep] + JoinWith(rest[1..], sep));
          assert ([[s[0]] + rest[0]] + rest[1..])[1..] == rest[1..];
        }
      }
    }
  }

  /** Joining parts that hold no separator and splitting again gives back the parts. */
  lemma {:induction false} SplitJoin(parts: seq<string>, sep: char)
    requires |parts| >= 1
    requires forall i :: 0 <= i < |parts| ==> sep !in parts[i]
    ensures Split(JoinWith(parts, sep), sep) == parts
  {
    if |parts| == 1 {
      SplitPlain(parts[0], sep);
    } else {
      SplitJoin(parts[1..], sep);
      SplitAround(parts[0], JoinWith(parts[1..], sep), sep);
      assert [parts[0]] + parts[1..] == parts;
    }
  }

  /** A string without the separator splits into itself. */
  lemma {:induction false} SplitPlain(s: string, sep: char)
    requires sep !in s
    ensures Split(s, sep) == [s]
  {
    if s != [] {
      SplitPlain(s[1..], sep);
      assert s[0] != sep;
      assert [s[0]] + s[1..] == s;
    }
  }

  /** Splitting `a + sep + b`, where `a` holds no separator, gives `a` and then the parts of `b`. */
  lemma {:induction false} SplitAround(a: string, b: string, sep: char)
    requires sep !in a
    ensures Split(a + ([sep] + b), sep) == [a] + Split(b, sep)
  {
    if a == [] {
      assert a + ([sep] + b) == [sep] + b;
      assert ([sep] + b)[1..] == b;
    } else {
      assert (a + ([sep] + b))[1..] == a[1..] + ([sep] + b);
      SplitAround(a[1..], b, sep);
      assert [a[0]] + a[1..] == a;
    }
  }

  /** `app_version_windows`: the first three dot-separated parts then 0, or `0,0,0,0`. */
  function WindowsVersion(version: string): (w: string)
    ensures Count(version, '.') < 2 ==> w == "0,0,0,0"
  {
    var parts := Split(version, '.');
    if |parts| >= 3 then parts[0] + ("," + (parts[1] + ("," + (parts[2] + ",0")))) else "0,0,0,0"
  }

  /**
   * A version of at least three parts maps to its first three parts, copied
   * verbatim, and a final 0; parts beyond the third are ignored.
   */
  lemma WindowsVersionOfParts(parts: seq<string>)
    requires |parts| >= 3
    requires forall i :: 0 <= i < |parts| ==> '.' !in parts[i]
    ensures WindowsVersion(JoinWith(parts, '.')) == parts[0] + ("," + (parts[1] + ("," + (parts[2] + ",0"))))
  {
    SplitJoin(parts, '.');
  }

  /**
   * When the version holds no comma, the Windows version has exactly four
   * comma-separated fields, the last of which is "0".
   */
  lemma WindowsVersionFields(version: string)
    requires ',' !in version
    ensures |Split(WindowsVersion(version), ',')| == 4
    ensures Split(WindowsVersion(version), ',')[3] == "0"
  {
    var parts := Split(version, '.');
    if |parts| >= 3 {
      PartsOfSplit(version, '.', ',', 0);
      PartsOfSplit(version, '.', ',', 1);
      PartsOfSplit(version, '.', ',', 2);
      SplitFour(parts[0], parts[1], parts[2], "0");
      assert ",0" == "," + "0";
      assert WindowsVersion(version) == parts[0] + ("," + (parts[1] + ("," + (parts[2] + ("," + "0")))));
    } else {
      SplitFour("0", "0", "0", "0");
      assert WindowsVersion(version) == "0" + ("," + ("0" + ("," + ("0" + ("," + "0")))));
    }
  }

  /** Four comma-free fields joined by commas split back into those four fields. */
  lemma SplitFour(a: string, b: string, c: string, d: string)
    requires ',' !in a && ',' !in b && ',' !in c && ',' !in d
    ensures Split(a + ("," + (b + ("," + (c + ("," + d))))), ',') == [a, b, c, d]
  {
    SplitPlain(d, ',');
    SplitAround(c, d, ',');
    SplitAround(b, c + ("," + d), ',');
    SplitAround(a, b + ("," + (c + ("," + d))), ',');
    assert [a] + ([b] + ([c] + [d])) == [a, b, c, d];
  }

  /** A character absent from `s` is absent from every part of `s`. */
  lemma {:induction false} PartsOfSplit(s: string, sep: char, c: char, i: nat)
    requires c !in s && i < |Split(s, sep)|
    ensures c !in Split(s, sep)[i]
  {
    if s != [] {
      var rest := Split(s[1..], sep);
      if s[0] == sep {
        if i > 0 { PartsOfSplit(s[1..], sep, c, i - 1); }
      } else {
        PartsOfSplit(s[1..], sep, c, i);
      }
    }
  }

  /** `pat` occurs in `s` starting at position `i`. */
  predicate OccursAt(s: string, pat: string, i: nat)
  {
    i + |pat| <= |s| && s[i..i + |pat|] == pat
  }

  /**
   * `str::replace`: every non-overlapping occurrence of `pat`, found left to
   * right, is replaced by `rep`. An empty pattern matches before every
   * character and at the end, as in Rust.
   */
  function Replace(s: string, pat: string, rep: string): string
    decreases |s|
  {
    if pat == [] then
      (if s == [] then rep else rep + [s[0]] + Replace(s[1..], pat, rep))
    else if |s| < |pat| then s
    else if s[..|pat|] == pat then rep + Replace(s[|pat|..], pat, rep)
    else [s[0]] + Replace(s[1..], pat, rep)
  }

  /** A pattern that does not occur leaves the text unchanged. */
  lemma {:induction false} ReplaceAbsent(s: string, pat: string, rep: string)
    requires pat != []
    requires forall i :: 0 <= i <= |s| ==> !OccursAt(s, pat, i)
    ensures Replace(s, pat, rep) == s
  {
    if |s| >= |pat| {
      assert !OccursAt(s, pat, 0);
      forall i | 0 <= i <= |s[1..]| ensures !OccursAt(s[1..], pat, i) {
        assert !OccursAt(s, pat, i + 1);
        if i + |pat| <= |s[1..]| {
          assert s[1..][i..i + |pat|] == s[i + 1..i + 1 + |pat|];
        }
      }
      ReplaceAbsent(s[1..], pat, rep);
      assert [s[0]] + s[1..] == s;
    }
  }

  /**
   * The leftmost occurrence is replaced first and the scan resumes after it:
   * if `pat` starts nowhere inside `a`, then `a + pat + b` becomes
   * `a + rep + Replace(b)`.
   */
  lemma {:induction false} ReplaceLeftmost(a: string, pat: string, b: string, rep: string)
    requires pat != []
    requires forall i :: 0 <= i < |a| ==> !OccursAt(a + pat + b, pat, i)
    ensures Replace(a + pat + b, pat, rep) == a + rep + Replace(b, pat, rep)
  {
    var s := a + pat + b;
    if a == [] {
      assert s == pat + b;
      assert s[..|pat|] == pat;
      assert s[|pat|..] == b;
    } else {
      assert !OccursAt(s, pat, 0);
      assert s[1..] == a[1..] + pat + b;
      forall i | 0 <= i < |a[1..]| ensures !OccursAt(a[1..] + pat + b, pat, i) {
        assert !OccursAt(s, pat, i + 1);
        if i + |pat| <= |s[1..]| {
          assert s[1..][i..i + |pat|] == s[i + 1..i + 1 + |pat|];
        }
      }
      ReplaceLeftmost(a[1..], pat, b, rep);
      assert [a[0]] + (a[1..] + rep + Replace(b, pat, rep)) == a + rep + Replace(b, pat, rep);
    }
  }

  /** Replacing one character by another works character by character. */
  lemma {:induction false} ReplaceChar(s: string, x: char, y: char)
    ensures |Replace(s, [x], [y])| == |s|
    ensures forall i :: 0 <= i < |s| ==> Replace(s, [x], [y])[i] == if s[i] == x then y else s[i]
  {
    if s != [] {
      ReplaceChar(s[1..], x, y);
      assert s[..1] == [s[0]];
    }
  }

  /** `CARGO_MANIFEST_DIR` with every backslash turned into a forward slash. */
  function RootPath(dir: string): (r: string)
    ensures |r| == |dir| && '\\' !in r
    ensures forall i :: 0 <= i < |dir| ==> r[i] == if dir[i] == '\\' then '/' else dir[i]
  {
    ReplaceChar(dir, '\\', '/');
    Replace(dir, "\\", "/")
  }

  const WindowsVersionPlaceholder: string := "@APP_VERSION_WINDOWS@"
  const VersionPlaceholder: string := "@APP_VERSION@"
  const RootPlaceholder: string := "@ROOT@"

  /** The resource script: the template with its three placeholders filled, in this order. */
  function Render(template: string, version: string, manifestDir: string): string
  {
    Replace(Replace(Replace(template, WindowsVersionPlaceholder, WindowsVersion(version)),
                    VersionPlaceholder, version),
            RootPlaceholder, RootPath(manifestDir))
  }

  /** Every placeholder starts with '@', so a string without '@' has none of them. */
  lemma NoAtNoPlaceholder(s: string, pat: string, rep: string)
    requires '@' !in s && pat != [] && pat[0] == '@'
    ensures Replace(s, pat, rep) == s
  {
    forall i | 0 <= i <= |s| ensures !OccursAt(s, pat, i) {
      if i + |pat| <= |s| {
        assert s[i..i + |pat|][0] == s[i];
      }
    }
    ReplaceAbsent(s, pat, rep);
  }

  lemma WindowsVersionHasNoAt(version: string)
    requires '@' !in version
    ensures '@' !in WindowsVersion(version)
  {
    var parts := Split(version, '.');
    if |parts| >= 3 {
      PartsOfSplit(version, '.', '@', 0);
      PartsOfSplit(version, '.', '@', 1);
      PartsOfSplit(version, '.', '@', 2);
    }
  }

  /** A template without '@' passes through unchanged. */
  lemma RenderPlain(template: string, version: string, manifestDir: string)
    requires '@' !in template
    ensures Render(template, version, manifestDir) == template
  {
    NoAtNoPlaceholder(template, WindowsVersionPlaceholder, WindowsVersion(version));
    NoAtNoPlaceholder(template, VersionPlaceholder, version);
    NoAtNoPlaceholder(template, RootPlaceholder, RootPath(manifestDir));
  }

  /**
   * Each placeholder is filled with its own value: the Windows version, the
   * version verbatim, and the manifest directory with forward slashes
   * (for a version without '@', as a Cargo version is; the directory, filled
   * in last, may hold any character).
   */
  lemma RenderPlaceholders(version: string, manifestDir: string)
    requires '@' !in version
    ensures Render(WindowsVersionPlaceholder, version, manifestDir) == WindowsVersion(version)
    ensures Render(VersionPlaceholder, version, manifestDir) == version
    ensures Render(RootPlaceholder, version, manifestDir) == RootPath(manifestDir)
  {
    var w := WindowsVersion(version);
    var root := RootPath(manifestDir);
    WindowsVersionHasNoAt(version);
    ReplaceWhole(WindowsVersionPlaceholder, w);
    NoAtNoPlaceholder(w, VersionPlaceholder, version);
    NoAtNoPlaceholder(w, RootPlaceholder, root);
    ReplaceWhole(VersionPlaceholder, version);
    NoAtNoPlaceholder(version, RootPlaceholder, root);
    ReplaceWhole(RootPlaceholder, root);
  }

  /** A string that is exactly the pattern becomes the replacement. */
  lemma ReplaceWhole(pat: string, rep: string)
    requires pat != []
    ensures Replace(pat, pat, rep) == rep
  {
    assert pat[|pat|..] == [];
  }

  /** What stops `compile_resources` with an error before the script is written. */
  datatype BuildError = TemplateUnreadable | ManifestDirUnset | OutDirUnset

  /** The resource script `compile_resources` writes: its directory, file name and text. */
  datatype ResourceScript = ResourceScript(dir: string, name: string, text: string)

  datatype BuildResult = Built(script: ResourceScript) | Failed(error: BuildError)

  /**
   * `compile_resources` up to `fs::write`: the template (read with `?`),
   * `CARGO_MANIFEST_DIR` and `OUT_DIR` (each `env::var(..)?`), in the order the
   * source consults them.
   */
  function CompileResources(template: Option<string>, version: string,
                            manifestDir: Option<string>, outDir: Option<string>): (r: BuildResult)
    ensures template.None? <==> r == Failed(TemplateUnreadable)
    ensures template.Some? && manifestDir.None? ==> r == Failed(ManifestDirUnset)
    ensures template.Some? && manifestDir.Some? && outDir.None? ==> r == Failed(OutDirUnset)
    ensures r.Built? <==> template.Some? && manifestDir.Some? && outDir.Some?
    ensures r.Built? ==> r.script == ResourceScript(outDir.value, "miniraw.rc",
                                                    Render(template.value, version, manifestDir.value))
  {
    if template.None? then Failed(TemplateUnreadable)
    else if manifestDir.None? then Failed(ManifestDirUnset)
    else if outDir.None? then Failed(OutDirUnset)
    else Built(ResourceScript(outDir.value, "miniraw.rc", Render(template.value, version, manifestDir.value)))
  }
}
