/**
  File-extension extraction and loader dispatch of `load_and_split_documents`:
  the extension is the lower-cased text after the last `.` of the file name
  (Python's `filename.lower().split(".")[-1]`), and it selects a text loader,
  a PDF loader, the generic unstructured loader, or no loader at all.
*/
module Extension {

  predicate IsUpper(c: char) { 'A' <= c <= 'Z' }

  /** `str.lower()` on one character, for the ASCII letters. */
  function Lower(c: char): (r: char)
    ensures !IsUpper(r)
    ensures IsUpper(c) ==> 'a' <= r <= 'z'
    ensures !IsUpper(c) ==> r == c
  {
    if IsUpper(c) then (c as int + 32) as char else c
  }

  /** `str.lower()` on a whole string: same length, each character lowered. */
  function LowerStr(s: string): (r: string)
    ensures |r| == |s|
    ensures forall i :: 0 <= i < |s| ==> r[i] == Lower(s[i])
  {
    if s == [] then [] else [Lower(s[0])] + LowerStr(s[1..])
  }

  predicate IsLowerCase(s: string) { forall i :: 0 <= i < |s| ==> !IsUpper(s[i]) }

  /** Inverse of `Split`: the pieces glued back together with the separator between them. */
  function Join(parts: seq<string>, sep: char): string
    requires |parts| >= 1
  {
    if |parts| == 1 then parts[0] else parts[0] + [sep] + Join(parts[1..], sep)
  }

  /**
    Python's `s.split(sep)` for a one-character separator: the maximal
    separator-free pieces of `s`, in order; there is always at least one.
  */
  function Split(s: string, sep: char): (parts: seq<string>)
    ensures |parts| >= 1
    ensures sep !in s ==> parts == [s]
    ensures sep in s ==> |parts| >= 2
  {
    if s == [] then [[]]
    else
      var rest := Split(s[1..], sep);
      if s[0] == sep then [[]] + rest
      else
        assert s == [s[0]] + s[1..];
        [[s[0]] + rest[0]] + rest[1..]
  }

  /** No piece of `Split(s, sep)` contains the separator. */
  lemma {:induction false} SplitPiecesSeparatorFree(s: string, sep: char)
    ensures forall i :: 0 <= i < |Split(s, sep)| ==> sep !in Split(s, sep)[i]
  {
    if s != [] {
      SplitPiecesSeparatorFree(s[1..], sep);
      var rest := Split(s[1..], sep);
      if s[0] != sep {
        assert sep !in [s[0]] + rest[0];
      }
    }
  }

  /** Round trip: joining the pieces of `Split(s, sep)` with `sep` gives `s` back. */
  lemma {:induction false} JoinSplit(s: string, sep: char)
    ensures Join(Split(s, sep), sep) == s
  {
    if s != [] {
      JoinSplit(s[1..], sep);
      var rest := Split(s[1..], sep);
      if s[0] == sep {
        assert ([[]] + rest)[1..] == rest;
      } else if |rest| == 1 {
        assert s == [s[0]] + s[1..];
      } else {
        var parts := [[s[0]] + rest[0]] + rest[1..];
        assert parts[1..] == rest[1..];
        assert Join(rest, sep) == rest[0] + [sep] + Join(rest[1..], sep);
        assert s == [s[0]] + s[1..];
      }
    }
  }

  function Last<T>(xs: seq<T>): T
    requires |xs| >= 1
  {
    xs[|xs| - 1]
  }

  /**
    The last piece of `Split(s, sep)` is the suffix of `s` after its last
    separator: it is a suffix of `s`, and either it is all of `s` (no
    separator in `s`) or the character just before it is the separator.
  */
  lemma {:induction false} LastPieceIsSuffix(s: string, sep: char)
    ensures |Last(Split(s, sep))| <= |s|
    ensures Last(Split(s, sep)) == s[|s| - |Last(Split(s, sep))|..]
    ensures sep in s ==> |Last(Split(s, sep))| < |s| && s[|s| - |Last(Split(s, sep))| - 1] == sep
  {
    if s != [] {
      var tail := s[1..];
      var rest := Split(tail, sep);
      LastPieceIsSuffix(tail, sep);
      var l := Last(rest);
      assert tail[|tail| - |l|..] == s[|s| - |l|..];
      if s[0] == sep {
        assert Split(s, sep) == [[]] + rest;
        assert Last(Split(s, sep)) == l;
        if sep !in tail {
          assert rest == [tail];
          assert |l| == |tail|;
          assert s[|s| - |l| - 1] == s[0];
        } else {
          assert s[|s| - |l| - 1] == tail[|tail| - |l| - 1];
        }
      } else if |rest| == 1 {
        assert Split(s, sep) == [[s[0]] + rest[0]];
        assert rest == [tail];
        assert Last(Split(s, sep)) == s;
      } else {
        assert Split(s, sep) == [[s[0]] + rest[0]] + rest[1..];
        assert Last(Split(s, sep)) == l;
        assert sep in tail;
        assert s[|s| - |l| - 1] == tail[|tail| - |l| - 1];
      }
    }
  }

  /** The extension of a file name, as `filename.lower().split(".")[-1]` computes it, with ASCII-only lowering. */
  function ExtensionOf(filename: string): string
  {
    Last(Split(LowerStr(filename), '.'))
  }

  /**
    The extension has no dot and no upper-case letter, and it is the suffix of
    the lower-cased name after its last dot: the whole lower-cased name when
    the name has no dot, else the part right after a dot.
  */
  lemma ExtensionOfShape(filename: string)
    ensures var ext := ExtensionOf(filename);
      && '.' !in ext
      && IsLowerCase(ext)
      && |ext| <= |filename| && ext == LowerStr(filename)[|filename| - |ext|..]
      && ('.' !in filename ==> ext == LowerStr(filename))
      && ('.' in filename ==> |ext| < |filename| && filename[|filename| - |ext| - 1] == '.')
  {
    var lowered := LowerStr(filename);
    LastPieceIsSuffix(lowered, '.');
    SplitPiecesSeparatorFree(lowered, '.');
    LowerStrKeepsDots(filename);
  }

  /** Lowering neither adds nor removes dots. */
  lemma LowerStrKeepsDots(s: string)
    ensures '.' in s <==> '.' in LowerStr(s)
  {
    var lowered := LowerStr(s);
    if '.' in s {
      var i :| 0 <= i < |s| && s[i] == '.';
      assert lowered[i] == '.';
    }
    if '.' in lowered {
      var i :| 0 <= i < |lowered| && lowered[i] == '.';
      assert s[i] == '.';
    }
  }

  /** Changing the letter case of a file name never changes its extension. */
  lemma ExtensionIgnoresCase(f: string, g: string)
    requires |f| == |g|
    requires forall i :: 0 <= i < |f| ==> Lower(f[i]) == Lower(g[i])
    ensures ExtensionOf(f) == ExtensionOf(g)
  {
    assert LowerStr(f) == LowerStr(g);
  }

  /** A dot at position `k` of `s` lies before any dot-free suffix `e` of `s`. */
  lemma DotBeforeDotFreeSuffix(s: string, e: string, k: int)
    requires |e| <= |s| && e == s[|s| - |e|..] && '.' !in e
    requires 0 <= k < |s| && s[k] == '.'
    ensures k < |s| - |e|
  {
    assert forall i :: |s| - |e| <= i < |s| ==> s[i] != '.' by {
      forall i | |s| - |e| <= i < |s|
        ensures s[i] != '.'
      {
        assert s[i] == e[i - (|s| - |e|)];
      }
    }
  }

  /** A name `stem.ext` with a dot-free `ext` has the lower-cased `ext` as its extension. */
  lemma ExtensionAfterLastDot(stem: string, ext: string)
    requires '.' !in ext
    ensures ExtensionOf(stem + "." + ext) == LowerStr(ext)
  {
    var f := stem + "." + ext;
    var e := ExtensionOf(f);
    var lowered := LowerStr(f);
    ExtensionOfShape(f);
    assert f[|stem|] == '.' && lowered[|stem|] == '.';
    DotBeforeDotFreeSuffix(lowered, e, |stem|);
    var k := |f| - |e| - 1;
    assert f[k] == '.';
    assert f[|f| - |ext|..] == ext;
    DotBeforeDotFreeSuffix(f, ext, k);
    assert |e| == |ext|;
    forall i | 0 <= i < |ext|
      ensures e[i] == LowerStr(ext)[i]
    {
      assert e[i] == lowered[|stem| + 1 + i] == Lower(f[|stem| + 1 + i]);
    }
  }

  /** The loaders `load_and_split_documents` can construct. */
  datatype LoaderKind = TextLoader | PyPdfLoader | UnstructuredFileLoader

  /** What happens to one file: it is loaded with a loader, or skipped. */
  datatype Route = Load(loader: LoaderKind) | Skip

  /** Extensions handed to the generic unstructured loader. */
  const UnstructuredExtensions: set<string> := {"png", "jpg", "jpeg", "docx", "html", "eml"}

  /** Every extension that selects some loader. */
  const SupportedExtensions: set<string> := {"txt", "pdf"} + UnstructuredExtensions

  /** The `if`/`elif`/`else: continue` chain on the extension. */
  function RouteFor(ext: string): (r: Route)
    ensures r == Load(TextLoader) <==> ext == "txt"
    ensures r == Load(PyPdfLoader) <==> ext == "pdf"
    ensures r == Load(UnstructuredFileLoader) <==> ext in UnstructuredExtensions
    ensures r == Skip <==> ext !in SupportedExtensions
  {
    if ext == "txt" then Load(TextLoader)
    else if ext == "pdf" then Load(PyPdfLoader)
    else if ext in UnstructuredExtensions then Load(UnstructuredFileLoader)
    else Skip
  }

  /** The route a file takes, from its name. */
  function Dispatch(filename: string): Route
  {
    RouteFor(ExtensionOf(filename))
  }

  /** Extensions outside the supported set, such as "", "doc" and "md", are skipped. */
  lemma UnlistedExtensionsSkipped()
    ensures RouteFor("") == Skip && RouteFor("doc") == Skip && RouteFor("md") == Skip
  {
  }
  /** An upper-case image name goes to the unstructured loader. */
  lemma DispatchUpperCaseImage()
    ensures Dispatch("Scan.JPEG") == Load(UnstructuredFileLoader)
  {
    assert "Scan.JPEG" == "Scan" + "." + "JPEG";
    ExtensionAfterLastDot("Scan", "JPEG");
    assert LowerStr("JPEG") == "jpeg";
  }

  /** Only the text after the last dot counts. */
  lemma DispatchLastDotOnly()
    ensures Dispatch("archive.tar.TXT") == Load(TextLoader)
  {
    assert "archive.tar.TXT" == "archive.tar" + "." + "TXT";
    ExtensionAfterLastDot("archive.tar", "TXT");
    assert LowerStr("TXT") == "txt";
  }

  /** A Markdown file is skipped. */
  lemma DispatchMarkdownSkipped()
    ensures Dispatch("notes.md") == Skip
  {
    assert "notes.md" == "notes" + "." + "md";
    ExtensionAfterLastDot("notes", "md");
    assert LowerStr("md") == "md" by {
      assert LowerStr("md") == [Lower('m')] + LowerStr("d");
    }
    assert ExtensionOf("notes.md") == "md";
    UnlistedExtensionsSkipped();
  }

  /** A name without a dot is taken whole, so a file named `PDF` goes to the PDF loader. */
  lemma DispatchNoDotTakenWhole()
    ensures Dispatch("PDF") == Load(PyPdfLoader)
  {
    assert '.' !in "PDF";
    ExtensionOfShape("PDF");
    assert LowerStr("PDF") == "pdf";
  }
}
