/**
 * How an artifact becomes a file name: the title is sanitised, the language
 * is mapped to an extension, and the candidates `{index+1}_{base}{ext}`,
 * `{index+1}_{base}_*{ext}`, `{index+1}_{base}_**{ext}`, … (or their
 * directory-mode forms) are tried until one is not yet in the set of names
 * already used.
 */
module Naming {
  import opened Maybe
  import opened Text

  /** The characters the title sanitiser keeps: `\w` (ASCII letters, digits, `_`), `-` and `.`. */
  predicate IsNameChar(c: char)
  {
    || ('A' <= c <= 'Z') || ('a' <= c <= 'z') || ('0' <= c <= '9')
    || c == '_' || c == '-' || c == '.'
  }

  /** Every character of `s` is kept by the sanitiser. */
  predicate AllNameChars(s: string)
  {
    forall i :: 0 <= i < |s| ==> IsNameChar(s[i])
  }

  /** Where the run of characters the sanitiser does not keep, starting at `i`, ends. */
  function RunEnd(s: string, i: nat): (j: nat)
    requires i <= |s|
    ensures i <= j <= |s|
    ensures forall k :: i <= k < j ==> !IsNameChar(s[k])
    ensures j == |s| || IsNameChar(s[j])
    decreases |s| - i
  {
    if i < |s| && !IsNameChar(s[i]) then RunEnd(s, i + 1) else i
  }

  /**
   * `title.replace(/[^\w\-._]+/g, "_")`: every maximal run of characters
   * outside `[A-Za-z0-9_.-]` becomes a single `_`.
   */
  function SanitiseTitle(s: string): (r: string)
    ensures AllNameChars(r)
    ensures |r| <= |s|
    decreases |s|
  {
    if s == [] then []
    else if IsNameChar(s[0]) then [s[0]] + SanitiseTitle(s[1..])
    else "_" + SanitiseTitle(s[RunEnd(s, 0)..])
  }

  /** A sanitised title never holds a `/`, so it never names a directory. */
  lemma SanitisedHasNoSlash(s: string)
    ensures '/' !in SanitiseTitle(s)
  {
  }

  /** A title made only of kept characters is left as it is, and only such a title is. */
  lemma {:induction false} SanitiseFixedPoint(s: string)
    ensures SanitiseTitle(s) == s <==> AllNameChars(s)
    decreases |s|
  {
    if s != [] {
      if IsNameChar(s[0]) {
        SanitiseFixedPoint(s[1..]);
        assert AllNameChars(s) <==> AllNameChars(s[1..]) by {
          if AllNameChars(s[1..]) {
            forall i | 0 <= i < |s|
              ensures IsNameChar(s[i])
            {
              if i > 0 {
                assert s[i] == s[1..][i - 1];
              }
            }
          }
        }
      } else {
        assert !AllNameChars(s) by {
          assert !IsNameChar(s[0]);
        }
        assert SanitiseTitle(s) != s by {
          assert SanitiseTitle(s)[0] == '_';
        }
      }
    }
  }

  /** Sanitising twice is sanitising once. */
  lemma SanitiseIdempotent(s: string)
    ensures SanitiseTitle(SanitiseTitle(s)) == SanitiseTitle(s)
  {
    SanitiseFixedPoint(SanitiseTitle(s));
  }

  /** A prefix of kept characters passes through unchanged, ahead of the sanitised rest. */
  lemma {:induction false} SanitiseKeptPrefix(a: string, b: string)
    requires AllNameChars(a)
    ensures SanitiseTitle(a + b) == a + SanitiseTitle(b)
    decreases |a|
  {
    if a != [] {
      assert (a + b)[0] == a[0];
      assert (a + b)[1..] == a[1..] + b;
      assert SanitiseTitle(a + b) == [a[0]] + SanitiseTitle(a[1..] + b);
      assert a == [a[0]] + a[1..];
      assert AllNameChars(a[1..]) by {
        forall i | 0 <= i < |a[1..]|
          ensures IsNameChar(a[1..][i])
        {
          assert a[1..][i] == a[i + 1];
        }
      }
      SanitiseKeptPrefix(a[1..], b);
      assert [a[0]] + (a[1..] + SanitiseTitle(b)) == ([a[0]] + a[1..]) + SanitiseTitle(b);
    } else {
      assert a + b == b;
    }
  }

  /** A non-empty run of dropped characters, up to a kept character or the end, becomes one `_`. */
  lemma SanitiseRun(run: string, b: string)
    requires run != [] && forall i :: 0 <= i < |run| ==> !IsNameChar(run[i])
    requires b == [] || IsNameChar(b[0])
    ensures SanitiseTitle(run + b) == "_" + SanitiseTitle(b)
  {
    var s := run + b;
    assert s[0] == run[0];
    assert forall k :: 0 <= k < |run| ==> s[k] == run[k];
    assert b != [] ==> s[|run|] == b[0];
    assert RunEnd(s, 0) == |run|;
    assert s[|run|..] == b;
  }

  /** The number of rows in `getFileExtension`'s table. */
  const TableSize := 19

  /** Row `i` of `getFileExtension`'s table, in the order the source lists them: a language and its extension. */
  function Row(i: nat): (string, string)
    requires i < TableSize
  {
    match i
    case 0 => ("javascript", ".js")
    case 1 => ("html", ".html")
    case 2 => ("css", ".css")
    case 3 => ("python", ".py")
    case 4 => ("java", ".java")
    case 5 => ("c", ".c")
    case 6 => ("cpp", ".cpp")
    case 7 => ("ruby", ".rb")
    case 8 => ("php", ".php")
    case 9 => ("swift", ".swift")
    case 10 => ("go", ".go")
    case 11 => ("rust", ".rs")
    case 12 => ("typescript", ".ts")
    case 13 => ("shell", ".sh")
    case 14 => ("sql", ".sql")
    case 15 => ("kotlin", ".kt")
    case 16 => ("scala", ".scala")
    case 17 => ("r", ".r")
    case _ => ("matlab", ".m")
  }

  /** The extension of the first row from `i` on whose language is `key`. */
  function LookupFrom(key: string, i: nat): Option<string>
    decreases TableSize - i
  {
    if i >= TableSize then None
    else if Row(i).0 == key then Some(Row(i).1)
    else LookupFrom(key, i + 1)
  }

  /** From row `i` on, the table yields an extension exactly when some row lists `key`, and then that row's extension. */
  lemma {:induction false} LookupFromFinds(key: string, i: nat)
    ensures LookupFrom(key, i).Some? <==> exists j :: i <= j < TableSize && Row(j).0 == key
    ensures LookupFrom(key, i).Some? ==>
              exists j :: i <= j < TableSize && Row(j).0 == key && LookupFrom(key, i).value == Row(j).1
    decreases TableSize - i
  {
    if i < TableSize && Row(i).0 != key {
      LookupFromFinds(key, i + 1);
    }
  }

  /** `getFileExtension`'s table: the extension of a lower-case language name it lists. */
  function TableExtension(key: string): Option<string>
  {
    LookupFrom(key, 0)
  }

  /** Every extension in the table is a `.` followed by kept characters, and none is `.txt`. */
  predicate ExtensionShape(ext: string)
  {
    |ext| >= 2 && ext[0] == '.' && AllNameChars(ext) && ext != ".txt"
  }

  /** Each row's extension has the shape of an extension. */
  lemma RowShape(i: nat)
    requires i < TableSize
    ensures ExtensionShape(Row(i).1)
  {
  }

  /** Whatever the table yields from row `i` on has the shape of an extension. */
  lemma {:induction false} LookupFromShape(key: string, i: nat)
    requires LookupFrom(key, i).Some?
    ensures ExtensionShape(LookupFrom(key, i).value)
    decreases TableSize - i
  {
    if Row(i).0 == key {
      RowShape(i);
    } else {
      LookupFromShape(key, i + 1);
    }
  }

  /** Every extension the table lists is a `.` followed by kept characters, and none is `.txt`. */
  lemma TableExtensionShape(key: string)
    requires TableExtension(key).Some?
    ensures ExtensionShape(TableExtension(key).value)
  {
    LookupFromShape(key, 0);
  }

  /**
   * `getFileExtension`: the table's extension for the lower-cased language,
   * `.txt` when the language is not in the table.
   */
  function FileExtension(language: string): string
  {
    match TableExtension(ToLower(language))
    case Some(ext) => ext
    case None => ".txt"
  }

  /**
   * The extension is `.txt` exactly when the table does not list the
   * lower-cased language, and otherwise the table's entry for it.
   */
  lemma FileExtensionLookup(language: string)
    ensures FileExtension(language) == ".txt" <==> TableExtension(ToLower(language)).None?
    ensures TableExtension(ToLower(language)).Some? ==> FileExtension(language) == TableExtension(ToLower(language)).value
  {
    if TableExtension(ToLower(language)).Some? {
      TableExtensionShape(ToLower(language));
    }
  }

  /** Every extension is a `.` followed by characters a sanitised title keeps. */
  lemma FileExtensionShape(language: string)
    ensures var ext := FileExtension(language);
            |ext| >= 2 && ext[0] == '.' && AllNameChars(ext)
  {
    if TableExtension(ToLower(language)).Some? {
      TableExtensionShape(ToLower(language));
    }
  }

  /** Lower-casing twice is lower-casing once. */
  lemma ToLowerIdempotent(s: string)
    ensures ToLower(ToLower(s)) == ToLower(s)
  {
  }

  /** The lookup ignores case: a language and its lower-case form map to the same extension. */
  lemma FileExtensionIgnoresCase(language: string)
    ensures FileExtension(language) == FileExtension(ToLower(language))
  {
    ToLowerIdempotent(language);
  }

  /** `getFileExtension("Python")` and `getFileExtension("python")` are both `.py`; `"Fortran"` falls back to `.txt`. */
  lemma FileExtensionExamples()
    ensures FileExtension("Python") == ".py"
    ensures FileExtension("python") == ".py"
    ensures FileExtension("Fortran") == ".txt"
  {
    assert ToLower("Python") == "python";
    assert ToLower("python") == "python";
    assert ToLower("Fortran") == "fortran";
    LookupFromFinds("fortran", 0);
  }

  /** `${messageIndex + 1}_`: the message-number prefix of a file name. */
  function IndexPrefix(messageIndex: int): string
  {
    IntToString(messageIndex + 1) + "_"
  }

  /** The prefix of an optional message index: empty for `null`. */
  function OptionalPrefix(messageIndex: Option<int>): string
  {
    match messageIndex
    case None => ""
    case Some(i) => IndexPrefix(i)
  }

  /**
   * `inferDirectoryStructure`: when the base name holds `/`, everything before
   * the last `/` is a directory and the message prefix goes in front of the
   * last part; otherwise the prefix goes in front of the whole base name.
   */
  function InferDirectoryStructure(baseName: string, extension: string, messageIndex: Option<int>, suffix: string): (r: string)
    ensures |r| == |OptionalPrefix(messageIndex)| + |baseName| + |suffix| + |extension|
    ensures '/' !in baseName ==> r == OptionalPrefix(messageIndex) + baseName + suffix + extension
  {
    var parts := Split(baseName, '/');
    SplitJoin(baseName, '/');
    SplitSingle(baseName, '/');
    if |parts| > 1 then
      JoinLast(parts, '/');
      Join(parts[..|parts| - 1], '/') + "/" + OptionalPrefix(messageIndex) + parts[|parts| - 1] + suffix + extension
    else
      assert parts == [baseName] by {
        assert Join(parts, '/') == parts[0];
      }
      OptionalPrefix(messageIndex) + baseName + suffix + extension
  }

  /** Without a message index, splitting at the last `/` and joining again gives back the base name. */
  lemma InferDirectoryWithoutIndex(baseName: string, extension: string, suffix: string)
    ensures InferDirectoryStructure(baseName, extension, None, suffix) == baseName + suffix + extension
  {
    var parts := Split(baseName, '/');
    SplitJoin(baseName, '/');
    if |parts| > 1 {
      JoinLast(parts, '/');
    }
  }

  /** The last `sep` of a string is where it is: two splits at a last `sep` agree. */
  lemma {:induction false} LastSeparatorUnique(x: string, y: string, x': string, y': string, sep: char)
    requires x + [sep] + y == x' + [sep] + y'
    requires sep !in y && sep !in y'
    ensures x == x' && y == y'
  {
    var s := x + [sep] + y;
    assert s[|x|] == sep && s[|x'|] == sep;
    assert forall i :: |x| < i < |s| ==> s[i] == y[i - |x| - 1];
    assert forall i :: |x'| < i < |s| ==> s[i] == y'[i - |x'| - 1];
    assert x == s[..|x|];
    assert y == s[|x| + 1..];
  }

  /**
   * With a message index and a `/` in the base name, the prefix goes in front
   * of the part after the last `/`, and the directory is kept as it is.
   */
  lemma InferDirectoryWithIndex(directory: string, last: string, extension: string, messageIndex: int, suffix: string)
    requires '/' !in last
    ensures InferDirectoryStructure(directory + "/" + last, extension, Some(messageIndex), suffix)
         == directory + "/" + IndexPrefix(messageIndex) + last + suffix + extension
  {
    var parts := Split(directory + "/" + last, '/');
    SplitAtLast(directory, last);
    assert Join(parts[..|parts| - 1], '/') == directory;
    assert parts[|parts| - 1] == last;
  }

  /** Splitting at `/` and taking off the last part gives the directory and the last part back. */
  lemma SplitAtLast(directory: string, last: string)
    requires '/' !in last
    ensures var parts := Split(directory + "/" + last, '/');
            && |parts| > 1 && parts[|parts| - 1] == last
            && Join(parts[..|parts| - 1], '/') == directory
  {
    var baseName := directory + "/" + last;
    var parts := Split(baseName, '/');
    assert '/' in baseName by {
      assert baseName[|directory|] == '/';
    }
    SplitJoin(baseName, '/');
    SplitSingle(baseName, '/');
    SplitPieces(baseName, '/');
    JoinLast(parts, '/');
    assert '/' !in parts[|parts| - 1];
    LastSeparatorUnique(Join(parts[..|parts| - 1], '/'), parts[|parts| - 1], directory, last, '/');
  }

  /** `"*".repeat(k)`. */
  function Stars(k: nat): (r: string)
    ensures |r| == k && forall i :: 0 <= i < k ==> r[i] == '*'
  {
    seq(k, i => '*')
  }

  /** The suffix of the `k`-th candidate: none for the first, `_` and `k` stars after. */
  function Suffix(k: nat): (r: string)
    ensures |r| == (if k == 0 then 0 else k + 1)
  {
    if k == 0 then "" else "_" + Stars(k)
  }

  /**
   * The `k`-th file name `getUniqueFileName` tries. In directory mode the
   * first try passes no message index, so it carries no number prefix.
   */
  function Candidate(baseName: string, extension: string, messageIndex: int, useDirectoryStructure: bool, k: nat): string
  {
    if useDirectoryStructure then
      InferDirectoryStructure(baseName, extension, if k == 0 then None else Some(messageIndex), Suffix(k))
    else
      IndexPrefix(messageIndex) + baseName + Suffix(k) + extension
  }

  /** Every retry is strictly longer than the try before it. */
  lemma CandidateLonger(baseName: string, extension: string, messageIndex: int, useDirectoryStructure: bool, k: nat)
    ensures |Candidate(baseName, extension, messageIndex, useDirectoryStructure, k)|
          < |Candidate(baseName, extension, messageIndex, useDirectoryStructure, k + 1)|
  {
  }

  /** Removing an element shrinks the part of a set that survives. */
  lemma SmallerPart(names: set<string>, smaller: set<string>, x: string)
    requires smaller <= names && x in names && x !in smaller
    ensures |smaller| < |names|
  {
    var rest := names - smaller;
    assert names == smaller + rest;
    assert smaller * rest == {};
    assert x in rest;
  }

  /** The names of `names` at least `len` long. */
  function AtLeast(names: set<string>, len: nat): set<string>
  {
    set n | n in names && |n| >= len
  }

  /**
   * The first candidate from the `k`-th on that is not in `names`. The search
   * ends because every retry is longer than the last, and `names` is finite.
   */
  function FreeFrom(names: set<string>, baseName: string, extension: string, messageIndex: int, useDirectoryStructure: bool, k: nat): (j: nat)
    ensures k <= j
    ensures Candidate(baseName, extension, messageIndex, useDirectoryStructure, j) !in names
    ensures forall m :: k <= m < j ==> Candidate(baseName, extension, messageIndex, useDirectoryStructure, m) in names
    decreases |AtLeast(names, |Candidate(baseName, extension, messageIndex, useDirectoryStructure, k)|)|
  {
    var c := Candidate(baseName, extension, messageIndex, useDirectoryStructure, k);
    if c !in names then k
    else
      CandidateLonger(baseName, extension, messageIndex, useDirectoryStructure, k);
      SmallerPart(AtLeast(names, |c|),
                  AtLeast(names, |Candidate(baseName, extension, messageIndex, useDirectoryStructure, k + 1)|), c);
      FreeFrom(names, baseName, extension, messageIndex, useDirectoryStructure, k + 1)
  }

  /**
   * The name `getUniqueFileName` picks when `usedNames` holds `names`: the
   * first free candidate for the sanitised title and the language's extension.
   */
  function UniqueName(names: set<string>, title: string, language: string, messageIndex: int, useDirectoryStructure: bool): (name: string)
    ensures name !in names
  {
    var baseName := SanitiseTitle(title);
    var extension := FileExtension(language);
    Candidate(baseName, extension, messageIndex, useDirectoryStructure,
              FreeFrom(names, baseName, extension, messageIndex, useDirectoryStructure, 0))
  }

  /**
   * Without directory mode the first free candidate is `{prefix}{ext}` when
   * that is free, and otherwise `{prefix}_{"*"×k}{ext}` for the least free `k`.
   */
  lemma FlatFree(names: set<string>, baseName: string, extension: string, messageIndex: int)
    ensures var name := Candidate(baseName, extension, messageIndex, false, FreeFrom(names, baseName, extension, messageIndex, false, 0));
            var prefix := IndexPrefix(messageIndex) + baseName;
            && (prefix + extension !in names ==> name == prefix + extension)
            && (prefix + extension in names ==>
                  exists k: nat :: && 1 <= k
                                  && name == prefix + "_" + Stars(k) + extension
                                  && forall m :: 1 <= m < k ==> prefix + "_" + Stars(m) + extension in names)
  {
    var prefix := IndexPrefix(messageIndex) + baseName;
    var j := FreeFrom(names, baseName, extension, messageIndex, false, 0);
    assert Candidate(baseName, extension, messageIndex, false, 0) == prefix + extension;
    if prefix + extension in names {
      assert j >= 1;
      forall m | 1 <= m < j
        ensures prefix + "_" + Stars(m) + extension in names
      {
        assert Candidate(baseName, extension, messageIndex, false, m) == prefix + "_" + Stars(m) + extension;
      }
      assert Candidate(baseName, extension, messageIndex, false, j) == prefix + "_" + Stars(j) + extension;
    }
  }

  /**
   * Without directory mode the name is `{index+1}_{base}{ext}` when that is
   * free, and otherwise `{index+1}_{base}_{"*"×k}{ext}` for the least free `k`.
   */
  lemma UniqueNameFlat(names: set<string>, title: string, language: string, messageIndex: int)
    ensures var name := UniqueName(names, title, language, messageIndex, false);
            var prefix := IndexPrefix(messageIndex) + SanitiseTitle(title);
            var extension := FileExtension(language);
            && (prefix + extension !in names ==> name == prefix + extension)
            && (prefix + extension in names ==>
                  exists k: nat :: && 1 <= k
                                  && name == prefix + "_" + Stars(k) + extension
                                  && forall m :: 1 <= m < k ==> prefix + "_" + Stars(m) + extension in names)
  {
    FlatFree(names, SanitiseTitle(title), FileExtension(language), messageIndex);
  }

  /**
   * In directory mode the sanitised title has no `/`, so the splitting branch
   * of `inferDirectoryStructure` is never taken: the first try is
   * `{base}{ext}` with no number, and the retries are
   * `{index+1}_{base}_{"*"×k}{ext}`.
   */
  lemma DirectoryModeCandidates(title: string, language: string, messageIndex: int, k: nat)
    ensures var baseName := SanitiseTitle(title);
            var extension := FileExtension(language);
            Candidate(baseName, extension, messageIndex, true, k)
              == (if k == 0 then baseName + extension
                  else IndexPrefix(messageIndex) + baseName + "_" + Stars(k) + extension)
  {
    SanitisedHasNoSlash(title);
    DirectoryCandidatesWithoutSlash(SanitiseTitle(title), FileExtension(language), messageIndex, k);
  }

  /** The directory-mode candidates of a base name without `/`. */
  lemma DirectoryCandidatesWithoutSlash(baseName: string, extension: string, messageIndex: int, k: nat)
    requires '/' !in baseName
    ensures Candidate(baseName, extension, messageIndex, true, k)
              == (if k == 0 then baseName + extension
                  else IndexPrefix(messageIndex) + baseName + "_" + Stars(k) + extension)
  {
    if k > 0 {
      assert IndexPrefix(messageIndex) + baseName + ("_" + Stars(k)) + extension
          == IndexPrefix(messageIndex) + baseName + "_" + Stars(k) + extension;
    }
  }

  /** The set of names already handed out, which `getUniqueFileName` extends in place. */
  class NameSet {
    var names: set<string>

    /** An empty set, as `new Set()` creates. */
    constructor ()
      ensures names == {}
    {
      names := {};
    }

    /** `usedNames.has(name)`. */
    predicate Has(name: string)
      reads this
    {
      name in names
    }

    /** `usedNames.add(name)`. */
    method Add(name: string)
      modifies this
      ensures names == old(names) + {name}
    {
      names := names + {name};
    }
  }

  /**
   * `getUniqueFileName`: tries the candidates in order until one is not in
   * `usedNames`, adds it to `usedNames` and returns it.
   */
  method GetUniqueFileName(title: string, language: string, messageIndex: int, usedNames: NameSet, useDirectoryStructure: bool)
    returns (fileName: string)
    modifies usedNames
    ensures fileName !in old(usedNames.names)
    ensures usedNames.names == old(usedNames.names) + {fileName}
    ensures fileName == UniqueName(old(usedNames.names), title, language, messageIndex, useDirectoryStructure)
  {
    var baseName := SanitiseTitle(title);
    var extension := FileExtension(language);
    fileName := if useDirectoryStructure then InferDirectoryStructure(baseName, extension, None, "")
                else IndexPrefix(messageIndex) + baseName + extension;
    assert fileName == Candidate(baseName, extension, messageIndex, useDirectoryStructure, 0);
    if usedNames.Has(fileName) {
      var suffix := "";
      var suffixCount := 1;
      while usedNames.Has(fileName)
        invariant usedNames.names == old(usedNames.names)
        invariant 1 <= suffixCount
        invariant fileName == Candidate(baseName, extension, messageIndex, useDirectoryStructure, suffixCount - 1)
        invariant FreeFrom(usedNames.names, baseName, extension, messageIndex, useDirectoryStructure, suffixCount - 1)
               == FreeFrom(usedNames.names, baseName, extension, messageIndex, useDirectoryStructure, 0)
        decreases |AtLeast(usedNames.names, |fileName|)|
      {
        CandidateLonger(baseName, extension, messageIndex, useDirectoryStructure, suffixCount - 1);
        SmallerPart(AtLeast(usedNames.names, |fileName|),
                    AtLeast(usedNames.names, |Candidate(baseName, extension, messageIndex, useDirectoryStructure, suffixCount)|),
                    fileName);
        suffix := "_" + Stars(suffixCount);
        fileName := if useDirectoryStructure then InferDirectoryStructure(baseName, extension, Some(messageIndex), suffix)
                    else IndexPrefix(messageIndex) + baseName + suffix + extension;
        suffixCount := suffixCount + 1;
      }
    }
    usedNames.Add(fileName);
  }
}
