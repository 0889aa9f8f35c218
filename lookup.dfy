/** The pure helpers of the migration look-up: the version number and the
    method name derived from a migration file name, and the loop that picks
    the migration files out of a directory listing. Reading the directory,
    the look-up table and the reflective call are not modelled. */
module Lookup {
  import opened Common

  predicate IsDigit(c: char) {
    '0' <= c <= '9'
  }

  predicate AllDigits(s: string) {
    forall i :: 0 <= i < |s| ==> IsDigit(s[i])
  }

  predicate NoDigits(s: string) {
    forall i :: 0 <= i < |s| ==> !IsDigit(s[i])
  }

  /** strconv.Atoi of a string of decimal digits (unbounded). */
  function DigitsValue(s: string): nat
    requires AllDigits(s)
  {
    if s == [] then 0
    else DigitsValue(s[..|s| - 1]) * 10 + (s[|s| - 1] as int - '0' as int)
  }

  /** The longest prefix of `s` made of digits. */
  function LeadingDigits(s: string): (d: string)
    ensures |d| <= |s| && d == s[..|d|]
    ensures AllDigits(d)
    ensures |d| == |s| || !IsDigit(s[|d|])
  {
    if s != [] && IsDigit(s[0]) then [s[0]] + LeadingDigits(s[1..]) else []
  }

  /** extractNumberFromFileName: the value of the leftmost run of digits,
      which the regular expression `(\d+)` matches greedily; the error
      "number not found in filename" when there is no digit. */
  function ExtractNumberFromFileName(fileName: string): (r: Result<nat>)
    ensures r.Err? <==> NoDigits(fileName)
    ensures r.Err? ==> r.error == NumberNotFound
  {
    if fileName == [] then Err(NumberNotFound)
    else if IsDigit(fileName[0]) then Ok(DigitsValue(LeadingDigits(fileName)))
    else ExtractNumberFromFileName(fileName[1..])
  }

  /** The digit run is maximal: a run followed by a non-digit (or by
      nothing) is the whole of LeadingDigits. */
  lemma {:induction false} LeadingDigitsOfRun(run: string, post: string)
    requires AllDigits(run)
    requires post == [] || !IsDigit(post[0])
    ensures LeadingDigits(run + post) == run
  {
    if run != [] {
      assert (run + post)[1..] == run[1..] + post;
      LeadingDigitsOfRun(run[1..], post);
    } else {
      assert run + post == post;
    }
  }

  /** Any name splits as digit-free text, a maximal non-empty run of digits
      and the rest; the extracted number is that run's value. */
  lemma {:induction false} ExtractNumberIsLeftmostRun(pre: string, run: string, post: string)
    requires NoDigits(pre)
    requires run != [] && AllDigits(run)
    requires post == [] || !IsDigit(post[0])
    ensures ExtractNumberFromFileName(pre + run + post) == Ok(DigitsValue(run))
  {
    if pre == [] {
      assert pre + run + post == run + post;
      LeadingDigitsOfRun(run, post);
    } else {
      assert (pre + run + post)[1..] == pre[1..] + run + post;
      ExtractNumberIsLeftmostRun(pre[1..], run, post);
    }
  }

  /** A migration file named by a digit-free stem, a digit and ".go" has
      that digit as its version. */
  lemma SingleDigitVersion(stem: string, d: char)
    requires NoDigits(stem) && IsDigit(d)
    ensures ExtractNumberFromFileName(stem + [d] + ".go") == Ok(d as int - '0' as int)
  {
    assert !IsDigit(".go"[0]);
    ExtractNumberIsLeftmostRun(stem, [d], ".go");
    assert DigitsValue([d]) == DigitsValue([]) * 10 + (d as int - '0' as int);
  }

  /** The migration files in the repository: "lookup1.go" is version 1 and
      "lookup3.go" version 3. */
  lemma MigrationVersions()
    ensures ExtractNumberFromFileName("lookup" + "1" + ".go") == Ok(1)
    ensures ExtractNumberFromFileName("lookup" + "3" + ".go") == Ok(3)
  {
    assert NoDigits("lookup");
    SingleDigitVersion("lookup", '1');
    SingleDigitVersion("lookup", '3');
  }

  /** "migrations.go", which LookUp skips, carries no version. */
  lemma MigrationsFileUnversioned()
    ensures ExtractNumberFromFileName("migrations.go") == Err(NumberNotFound)
  {
    assert NoDigits("migrations.go");
  }

  /** The path with its trailing slashes removed. */
  function TrimTrailingSlashes(path: string): (p: string)
    ensures |p| <= |path| && p == path[..|p|]
    ensures p == [] || p[|p| - 1] != '/'
    ensures forall i :: |p| <= i < |path| ==> path[i] == '/'
  {
    if path != [] && path[|path| - 1] == '/' then TrimTrailingSlashes(path[..|path| - 1]) else path
  }

  /** The part of `p` after its last slash. */
  function AfterLastSlash(p: string): (e: string)
    ensures |e| <= |p| && e == p[|p| - |e|..]
    ensures '/' !in e
    ensures |e| < |p| ==> p[|p| - |e| - 1] == '/'
  {
    if p == [] || p[|p| - 1] == '/' then []
    else AfterLastSlash(p[..|p| - 1]) + [p[|p| - 1]]
  }

  /** filepath.Base on a Unix path: "." for the empty path, "/" for a path
      of slashes only, otherwise the last element. */
  function Base(path: string): (b: string)
    ensures b != []
    ensures path == "" ==> b == "."
    ensures path != "" && TrimTrailingSlashes(path) == "" ==> b == "/"
    ensures TrimTrailingSlashes(path) != "" ==> b == AfterLastSlash(TrimTrailingSlashes(path))
  {
    if path == "" then "."
    else
      var p := TrimTrailingSlashes(path);
      if p == "" then "/"
      else AfterLastSlash(p)
  }

  /** filepath.Ext: the suffix from the final dot of the last path element,
      or "" when that element has no dot. */
  function Ext(path: string): (e: string)
    ensures |e| <= |path| && e == path[|path| - |e|..]
    ensures e != [] ==> e[0] == '.' && '.' !in e[1..] && '/' !in e
    ensures e == [] ==> '.' !in AfterLastSlash(path)
  {
    if path == [] || path[|path| - 1] == '/' then []
    else if path[|path| - 1] == '.' then "."
    else
      var e := Ext(path[..|path| - 1]);
      if e == [] then [] else e + [path[|path| - 1]]
  }

  /** extractNameFromFileName: the base name without its extension. */
  function ExtractNameFromFileName(fileName: string): (name: string)
    ensures name + Ext(Base(fileName)) == Base(fileName)
    ensures '.' !in Base(fileName) ==> name == Base(fileName)
  {
    var b := Base(fileName);
    var e := Ext(b);
    StripSuffix(b, e);
    b[..|b| - |e|]
  }

  /** Cutting a suffix off and putting it back gives the string again; a
      non-empty suffix starting with '.' puts a '.' in the string. */
  lemma StripSuffix(b: string, e: string)
    requires |e| <= |b| && e == b[|b| - |e|..]
    ensures b[..|b| - |e|] + e == b
    ensures e != [] && e[0] == '.' ==> '.' in b
  {
    if e != [] {
      assert b[|b| - |e|] == e[0];
    }
  }

  /** A character after which strings.Title capitalises (ASCII): anything
      but a letter, a digit or '_'. */
  predicate IsSeparator(c: char) {
    c <= 0x7F as char && !('a' <= c <= 'z' || 'A' <= c <= 'Z' || '0' <= c <= '9' || c == '_')
  }

  /** strings.Title with the previous character's separator status given. */
  function TitleFrom(s: string, afterSeparator: bool): (r: string)
    ensures |r| == |s|
    ensures s != [] ==> r[0] == (if afterSeparator then UpperChar(s[0]) else s[0])
    ensures forall i :: 0 < i < |s| ==> r[i] == (if IsSeparator(s[i - 1]) then UpperChar(s[i]) else s[i])
  {
    if s == [] then []
    else [if afterSeparator then UpperChar(s[0]) else s[0]] + TitleFrom(s[1..], IsSeparator(s[0]))
  }

  /** strings.Title over ASCII: every letter that starts a word is
      upper-cased. */
  function Title(s: string): string {
    TitleFrom(s, true)
  }

  /** The name of the migration method LookUp calls for a file. */
  function MethodName(fileName: string): string {
    Title(ExtractNameFromFileName(fileName))
  }

  /** A name without slashes and dots is its own base and has no extension. */
  lemma PlainNameParts(s: string)
    requires s != [] && '/' !in s
    ensures Base(s) == s
  {
    assert TrimTrailingSlashes(s) == s;
  }

  /** The extension of any stem followed by ".go" is ".go". */
  lemma GoExtension(stem: string)
    ensures Ext(stem + ".go") == ".go"
  {
    var path := stem + ".go";
    assert path[..|path| - 1] == stem + ".g";
    assert (stem + ".g")[..|stem| + 1] == stem + ".";
    assert Ext(stem + ".") == ".";
    assert Ext(stem + ".g") == ".g";
  }

  /** The name extracted from "<stem>.go", for a stem without slashes, is
      the stem. */
  lemma GoFileName(stem: string)
    requires stem != [] && '/' !in stem
    ensures ExtractNameFromFileName(stem + ".go") == stem
  {
    var f := stem + ".go";
    assert '/' !in f by {
      assert forall i :: 0 <= i < |f| ==> f[i] == if i < |stem| then stem[i] else ".go"[i - |stem|];
    }
    PlainNameParts(f);
    GoExtension(stem);
    assert f[..|stem|] == stem;
  }

  /** A word without separators is title-cased by upper-casing its first
      letter. */
  lemma TitleOfWord(w: string)
    requires w != []
    requires forall i :: 0 <= i < |w| ==> !IsSeparator(w[i])
    ensures Title(w) == [UpperChar(w[0])] + w[1..]
  {
    var t := Title(w);
    forall i | 0 <= i < |w|
      ensures t[i] == ([UpperChar(w[0])] + w[1..])[i]
    {
      if i > 0 {
        assert !IsSeparator(w[i - 1]);
      }
    }
  }

  /** The method name for "<w>.go", where `w` has no separators, is `w`
      with its first letter upper-cased. */
  lemma MethodNameOfGoFile(w: string)
    requires w != []
    requires forall i :: 0 <= i < |w| ==> !IsSeparator(w[i])
    ensures MethodName(w + ".go") == [UpperChar(w[0])] + w[1..]
  {
    assert '/' !in w by {
      assert IsSeparator('/');
    }
    GoFileName(w);
    TitleOfWord(w);
  }

  /** Letters followed by digits contain no word separator. */
  predicate LowerLetters(s: string) {
    forall i :: 0 <= i < |s| ==> 'a' <= s[i] <= 'z'
  }

  lemma NoSeparatorInStem(letters: string, digits: string)
    requires LowerLetters(letters)
    requires AllDigits(digits)
    ensures forall i :: 0 <= i < |letters + digits| ==> !IsSeparator((letters + digits)[i])
  {
    var w := letters + digits;
    forall i | 0 <= i < |w| ensures !IsSeparator(w[i]) {
      if i < |letters| {
        assert w[i] == letters[i];
      } else {
        assert w[i] == digits[i - |letters|];
      }
    }
  }

  /** The method name for a lower-case stem followed by digits and ".go"
      is the stem with its first letter upper-cased, then the digits. */
  lemma StemMethodName(stem: string, digits: string)
    requires stem != [] && LowerLetters(stem)
    requires AllDigits(digits)
    ensures MethodName(stem + digits + ".go") == [UpperChar(stem[0])] + stem[1..] + digits
  {
    NoSeparatorInStem(stem, digits);
    MethodNameOfGoFile(stem + digits);
    CapitalisedConcat(stem, digits);
  }

  lemma CapitalisedConcat(stem: string, digits: string)
    requires stem != []
    ensures [UpperChar((stem + digits)[0])] + (stem + digits)[1..] == [UpperChar(stem[0])] + stem[1..] + digits
  {
    assert (stem + digits)[1..] == stem[1..] + digits;
  }

  /** A migration file "lookup<digits>.go" dispatches to the method
      "Lookup<digits>": "lookup1.go" to Lookup1 and "lookup3.go" to Lookup3,
      the names the migrations in updates/ declare. */
  lemma LookupMethodName(digits: string)
    requires AllDigits(digits)
    ensures MethodName("lookup" + digits + ".go") == "Lookup" + digits
  {
    LookupStem();
    StemMethodName("lookup", digits);
    LookupCapitalised(digits);
  }

  lemma LookupStem()
    ensures "lookup" != [] && LowerLetters("lookup")
  {
  }

  lemma LookupCapitalised(digits: string)
    ensures [UpperChar("lookup"[0])] + "lookup"[1..] + digits == "Lookup" + digits
  {
    assert [UpperChar("lookup"[0])] + "lookup"[1..] == "Lookup";
  }

  /** An entry of a directory listing. */
  datatype DirEntry = DirEntry(name: string, isDir: bool)

  /** The entries LookUp runs migrations for: files other than
      "migrations.go". */
  predicate Kept(e: DirEntry) {
    !e.isDir && e.name != "migrations.go"
  }

  /** The names of the kept entries, in listing order. */
  function KeptNames(entries: seq<DirEntry>): seq<string> {
    if entries == [] then []
    else KeptNames(entries[..|entries| - 1])
         + (if Kept(entries[|entries| - 1]) then [entries[|entries| - 1].name] else [])
  }

  /** The filter loop of LookUp: count and collect the names of the entries
      that are neither directories nor "migrations.go". */
  method FilterMigrationFiles(files: seq<DirEntry>) returns (fileCount: nat, filesName: seq<string>)
    ensures filesName == KeptNames(files)
    ensures fileCount == |filesName|
  {
    fileCount := 0;
    filesName := [];
    for i := 0 to |files|
      invariant filesName == KeptNames(files[..i])
      invariant fileCount == |filesName|
    {
      assert files[..i + 1][..i] == files[..i];
      var file := files[i];
      if file.isDir || file.name == "migrations.go" {
        continue;
      }
      fileCount := fileCount + 1;
      filesName := filesName + [file.name];
    }
    assert files[..|files|] == files;
  }

  /** Filtering distributes over concatenation, so kept names keep their
      listing order. */
  lemma {:induction false} KeptNamesAppend(a: seq<DirEntry>, b: seq<DirEntry>)
    ensures KeptNames(a + b) == KeptNames(a) + KeptNames(b)
    decreases |b|
  {
    if b == [] {
      assert a + b == a;
    } else {
      var b' := b[..|b| - 1];
      assert (a + b)[..|a + b| - 1] == a + b';
      KeptNamesAppend(a, b');
    }
  }

  /** A name is collected exactly when some kept entry carries it; in
      particular "migrations.go" and directory names are never collected. */
  lemma {:induction false} KeptNamesMembership(entries: seq<DirEntry>, n: string)
    ensures n in KeptNames(entries) <==>
              exists i :: 0 <= i < |entries| && Kept(entries[i]) && entries[i].name == n
  {
    if entries != [] {
      var init := entries[..|entries| - 1];
      KeptNamesMembership(init, n);
      assert forall i :: 0 <= i < |init| ==> init[i] == entries[i];
    }
  }
}
