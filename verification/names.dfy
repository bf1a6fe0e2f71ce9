/** Choosing the output name for an upload (app.py:71-80): take the form
    field "output_name" (or, when it is missing, the uploaded file's stem),
    strip it, fall back to the stem when that leaves nothing, keep only
    letters, digits, space, underscore and hyphen, strip again, and append
    ".pdf" for the download. */
module Names {
  import opened Optional
  import opened Text

  /** The index of the last `c` in `s`, or -1 (Python's `str.rfind`). */
  function LastIndexOf(s: string, c: char): (r: int)
    ensures -1 <= r < |s|
    ensures r >= 0 ==> s[r] == c
    ensures forall i :: r < i < |s| ==> s[i] != c
  {
    if |s| == 0 then -1
    else if s[|s| - 1] == c then |s| - 1
    else LastIndexOf(s[..|s| - 1], c)
  }

  /** `os.path.splitext(p)[0]` with POSIX separators: cut at the last '.'
      after the last '/', unless everything between that '/' and the '.' is
      dots (a hidden file such as ".bashrc" has no extension). */
  function Stem(p: string): (root: string)
    ensures |root| <= |p| && root == p[..|root|]
    ensures root != p ==> p[|root|] == '.' && forall i :: |root| < i < |p| ==> p[i] != '.' && p[i] != '/'
    ensures root != p ==> exists i :: LastIndexOf(p, '/') < i < |root| && root[i] != '.'
    ensures (exists d, i :: LastIndexOf(p, '/') < i < d < |p| && p[d] == '.' && p[i] != '.') ==> root != p
  {
    LastDotAfterName(p);
    var sep := LastIndexOf(p, '/');
    var dot := LastIndexOf(p, '.');
    if dot > sep && exists i :: sep + 1 <= i < dot && p[i] != '.' then p[..dot] else p
  }

  /** When the last path component has a '.' after a character other than
      '.', the last '.' of the whole path is such a '.' too. */
  lemma LastDotAfterName(p: string)
    ensures (exists d, i :: LastIndexOf(p, '/') < i < d < |p| && p[d] == '.' && p[i] != '.') ==>
      var dot := LastIndexOf(p, '.');
      dot > LastIndexOf(p, '/') && exists i :: LastIndexOf(p, '/') + 1 <= i < dot && p[i] != '.'
  {
    if exists d, i :: LastIndexOf(p, '/') < i < d < |p| && p[d] == '.' && p[i] != '.' {
      var d, i :| LastIndexOf(p, '/') < i < d < |p| && p[d] == '.' && p[i] != '.';
      assert LastIndexOf(p, '.') >= d;
    }
  }

  /** The stem of `name.ext` is `name` whenever the extension has no '.' or
      '/' and `name` does not end in '.' or '/'. */
  lemma StemOfExtension(name: string, ext: string)
    requires |name| > 0 && name[|name| - 1] != '.' && name[|name| - 1] != '/'
    requires forall i :: 0 <= i < |ext| ==> ext[i] != '.' && ext[i] != '/'
    ensures Stem(name + "." + ext) == name
  {
    var p := name + "." + ext;
    var dot := LastIndexOf(p, '.');
    assert p[|name|] == '.';
    assert dot == |name|;
    assert LastIndexOf(p, '/') < |name| - 1 by {
      assert p[|name| - 1] != '/';
    }
    assert p[|name| - 1] != '.';
    assert p[..dot] == name;
  }

  /** A name with no '.' at all is its own stem. */
  lemma StemWithoutDot(p: string)
    requires forall i :: 0 <= i < |p| ==> p[i] != '.'
    ensures Stem(p) == p
  {
  }

  /** A hidden file inside a directory keeps its name: the '.' of "d/.x" is
      the leading dot of ".x", not an extension separator. */
  lemma HiddenFileKeepsName(p: string)
    requires p == "d/.x"
    ensures Stem(p) == p
  {
    assert p[1] == '/';
    assert LastIndexOf(p, '/') == 1;
  }

  /** A file name is empty exactly when its stem is. */
  lemma StemEmptyIff(p: string)
    ensures Stem(p) == [] <==> p == []
  {
  }

  // ---------------------------------------------------------------------
  // Sanitising

  /** The characters a download name may keep. */
  predicate IsSafeChar(c: char) {
    IsAlnum(c) || c == ' ' || c == '_' || c == '-'
  }

  predicate AllSafe(s: string) {
    forall i :: 0 <= i < |s| ==> IsSafeChar(s[i])
  }

  /** The safe characters of `s`, in their order; every other character is
      dropped. */
  function KeepSafe(s: string): (r: string)
    ensures AllSafe(r)
    ensures |r| <= |s|
    ensures AllSafe(s) ==> r == s
    ensures forall i :: 0 <= i < |r| ==> r[i] in s
  {
    if |s| == 0 then []
    else KeepSafe(s[..|s| - 1]) + (if IsSafeChar(s[|s| - 1]) then [s[|s| - 1]] else [])
  }

  /** Filtering works piecewise, so the characters kept stay in their
      original order. */
  lemma {:induction false} KeepSafeAppend(a: string, b: string)
    ensures KeepSafe(a + b) == KeepSafe(a) + KeepSafe(b)
    decreases |b|
  {
    if |b| == 0 {
      assert a + b == a;
    } else {
      var b' := b[..|b| - 1];
      assert (a + b)[..|a + b| - 1] == a + b';
      assert (a + b)[|a + b| - 1] == b[|b| - 1];
      KeepSafeAppend(a, b');
    }
  }

  /** A single character is kept exactly when it is safe. Together with
      `KeepSafeAppend` this fixes the filter on every string. */
  lemma KeepSafeChar(c: char)
    ensures KeepSafe([c]) == (if IsSafeChar(c) then [c] else [])
  {
    assert [c][..0] == [];
  }

  /** Filtering whitespace leaves whitespace. */
  lemma KeepSafeBlank(s: string)
    requires IsBlank(s)
    ensures IsBlank(KeepSafe(s))
  {
    var r := KeepSafe(s);
    forall i | 0 <= i < |r| ensures IsSpace(r[i]) {
      var j :| 0 <= j < |s| && s[j] == r[i];
    }
  }

  /** The name used for both the metadata title and the download:
      filtered, then stripped (app.py:79). It holds only safe characters and
      has no whitespace at either end. */
  function Sanitize(name: string): (safe: string)
    ensures AllSafe(safe) && IsTrimmed(safe)
  {
    var kept := KeepSafe(name);
    StripKeepsSafe(kept);
    Strip(kept)
  }

  /** Stripping a string of safe characters leaves safe characters. */
  lemma StripKeepsSafe(s: string)
    requires AllSafe(s)
    ensures AllSafe(Strip(s))
  {
    var lo := StripIsTrimmedInfix(s);
    SliceSafe(s, lo, lo + |Strip(s)|);
  }

  /** Stripping before sanitising changes nothing: the whitespace `strip`
      removes is either filtered away or stripped again afterwards. */
  lemma SanitizeStrip(name: string)
    ensures Sanitize(Strip(name)) == Sanitize(name)
  {
    var lo := StripIsTrimmedInfix(name);
    var r := Strip(name);
    var pre, post := name[..lo], name[lo + |r|..];
    assert name == pre + r + post;
    assert IsBlank(pre) && IsBlank(post);
    KeepSafeAppend(pre + r, post);
    KeepSafeAppend(pre, r);
    KeepSafeBlank(pre);
    KeepSafeBlank(post);
    StripPadded(KeepSafe(pre), KeepSafe(r), KeepSafe(post));
  }

  lemma SliceSafe(s: string, lo: int, hi: int)
    requires AllSafe(s) && 0 <= lo <= hi <= |s|
    ensures AllSafe(s[lo..hi])
  {
    assert forall i :: 0 <= i < hi - lo ==> s[lo..hi][i] == s[lo + i];
  }

  /** Sanitising a sanitised name changes nothing. */
  lemma SanitizeIdempotent(name: string)
    ensures Sanitize(Sanitize(name)) == Sanitize(name)
  {
    var safe := Sanitize(name);
    assert KeepSafe(safe) == safe;
    StripFixedIff(safe);
  }

  /** A name already made of safe characters with no space at either end
      is left exactly as it is. */
  lemma SanitizeFixesSafeNames(name: string)
    requires AllSafe(name) && IsTrimmed(name)
    ensures Sanitize(name) == name
  {
    StripFixedIff(name);
  }

  // ---------------------------------------------------------------------
  // The name chosen for an upload

  /** app.py:72-76: the form field (or, when it is missing, the stem),
      stripped; the unstripped stem when the field is blank. The chosen name
      is empty only when the stem is, and it is either the stem itself or a
      trimmed name. */
  function ChooseName(field: Option<string>, stem: string): (name: string)
    ensures stem != [] ==> name != []
    ensures name == stem || (name != [] && IsTrimmed(name))
    ensures field.Some? && IsBlank(field.value) ==> name == stem
    ensures field.Some? && !IsBlank(field.value) ==> name == Strip(field.value)
    ensures field.None? && !IsBlank(stem) ==> name == Strip(stem)
    ensures field.None? && IsBlank(stem) ==> name == stem
  {
    var given := if field.Some? then field.value else stem;
    StripEmptyIffBlank(given);
    var name := Strip(given);
    if name == [] then stem else name
  }

  /** The chosen name is never empty for a non-empty file name: an empty
      field always falls back to the stem. */
  lemma ChosenNameNonEmpty(field: Option<string>, filename: string)
    requires filename != []
    ensures ChooseName(field, Stem(filename)) != []
  {
    StemEmptyIff(filename);
  }

  /** The safe name used as metadata title and the file name offered for
      download. */
  datatype Naming = Naming(safeName: string, downloadName: string)

  /** app.py:71-80, from the uploaded file name and the optional form field:
      the safe name is the sanitised field when the field has something
      besides whitespace, and the sanitised stem otherwise. */
  function NameUpload(field: Option<string>, filename: string): (n: Naming)
    ensures field.Some? && !IsBlank(field.value) ==> n.safeName == Sanitize(field.value)
    ensures field.None? || IsBlank(field.value) ==> n.safeName == Sanitize(Stem(filename))
    ensures AllSafe(n.safeName) && IsTrimmed(n.safeName)
    ensures Sanitize(n.safeName) == n.safeName
    ensures n.downloadName == n.safeName + ".pdf"
  {
    var chosen := ChooseName(field, Stem(filename));
    SanitizeChosen(field, Stem(filename));
    SanitizeIdempotent(chosen);
    var safe := Sanitize(chosen);
    Naming(safe, safe + ".pdf")
  }

  /** Whichever way the name was chosen, sanitising it is sanitising the
      field or the stem it came from. */
  lemma SanitizeChosen(field: Option<string>, stem: string)
    ensures field.Some? && !IsBlank(field.value) ==> Sanitize(ChooseName(field, stem)) == Sanitize(field.value)
    ensures field.None? || IsBlank(field.value) ==> Sanitize(ChooseName(field, stem)) == Sanitize(stem)
  {
    if field.Some? && !IsBlank(field.value) {
      SanitizeStrip(field.value);
    } else if field.None? && !IsBlank(stem) {
      SanitizeStrip(stem);
    }
  }

  /** The worked example: a field "My Report!!" gives the title "My Report"
      and the download "My Report.pdf", whatever the file was called. */
  lemma NameUploadExample(field: Option<string>, filename: string)
    requires field == Some("My Report!!")
    ensures NameUpload(field, filename) == Naming("My Report", "My Report.pdf")
  {
    var given := field.value;
    ExampleFieldIsTrimmed(given);
    ExampleSanitized(given);
    NameUploadFromField(given, filename);
    var n := NameUpload(field, filename);
    assert n.safeName == "My Report";
    ExampleDownloadName(n.safeName);
  }

  lemma ExampleDownloadName(safe: string)
    requires safe == "My Report"
    ensures safe + ".pdf" == "My Report.pdf"
  {
  }

  /** A field that survives stripping is what gets sanitised. */
  lemma NameUploadFromField(given: string, filename: string)
    requires Strip(given) != []
    ensures NameUpload(Some(given), filename).safeName == Sanitize(Strip(given))
  {
  }

  lemma ExampleSanitized(given: string)
    requires given == "My Report!!"
    ensures Sanitize(Strip(given)) == "My Report"
  {
    ExampleFieldIsTrimmed(given);
    ExampleFieldFiltered(given);
    StripFixedIff("My Report");
  }

  lemma ExampleFieldIsTrimmed(given: string)
    requires given == "My Report!!"
    ensures Strip(given) == given
  {
    StripFixedIff(given);
  }

  lemma ExampleFieldFiltered(given: string)
    requires given == "My Report!!"
    ensures KeepSafe(given) == "My Report"
  {
    var name, bang := "My Report", "!!";
    assert given == name + bang;
    KeepSafeAppend(name, bang);
    BangsFilteredAway(bang);
    assert AllSafe(name);
  }

  /** When the field holds only punctuation, the fallback has already been
      passed: the safe name comes out empty and the download is ".pdf". */
  lemma PunctuationOnlyFieldGivesEmptyName(field: Option<string>, filename: string)
    requires field == Some("!!")
    ensures NameUpload(field, filename) == Naming("", ".pdf")
  {
    var given := field.value;
    BangsSurviveStrip(given);
    BangsFilteredAway(given);
    NameUploadFromField(given, filename);
  }

  lemma BangsSurviveStrip(given: string)
    requires given == "!!"
    ensures Strip(given) == given
  {
    StripFixedIff(given);
  }

  lemma BangsFilteredAway(given: string)
    requires given == "!!"
    ensures KeepSafe(given) == []
  {
    assert given[..1] == "!";
    assert "!"[..0] == [];
  }

  /** Without the form field, an upload called "name.pdf" with a safe,
      trimmed, dot-free name is titled "name". */
  lemma MissingFieldUsesStem(name: string)
    requires name != [] && AllSafe(name) && IsTrimmed(name)
    ensures NameUpload(None, name + ".pdf") == Naming(name, name + ".pdf")
  {
    assert name[|name| - 1] != '.' && name[|name| - 1] != '/' by {
      assert IsSafeChar(name[|name| - 1]);
    }
    StemOfExtension(name, "pdf");
    assert name + ".pdf" == name + "." + "pdf";
    StripFixedIff(name);
    SanitizeFixesSafeNames(name);
  }
}
