/** Font classifier: every source font name is mapped onto one of the three
    Helvetica variants built into the PDF library, by case-insensitive
    substring tests on the name (app.py:29-31, processor.py:63-65). */
module Fonts {
  import opened Text

  /** The fonts text can be written in: the three built-in Helvetica faces
      the classifier chooses from, and the generic family used for the one
      retry after a failed insertion (processor.py:78). */
  datatype FontId = Helv | Hebo | Heit | SansSerif

  /** The `fontname` string handed to the library. */
  function FontName(f: FontId): string {
    match f
    case Helv => "helv"
    case Hebo => "hebo"
    case Heit => "heit"
    case SansSerif => "sans-serif"
  }

  /** The four names are different strings, so the font a record is written
      in is identified by its name: "helv", "hebo" and "heit" for the
      classifier's choices and "sans-serif" for the retry. */
  lemma FontNamesDistinct(a: FontId, b: FontId)
    ensures FontName(a) == FontName(b) <==> a == b
  {
  }

  predicate NamesBold(fontName: string) {
    Contains(Lower(fontName), "bold")
  }

  predicate NamesItalic(fontName: string) {
    Contains(Lower(fontName), "italic")
  }

  /** The classifier as the program writes it: start from "helv", switch to
      "hebo" if the lower-cased name contains "bold", then switch to "heit"
      if it contains "italic". The second test runs last, so italic wins. It
      never picks "sans-serif", so the one retry always uses a different
      font from the first attempt. */
  function Classify(fontName: string): (f: FontId)
    ensures f != SansSerif
    ensures f == Heit <==> NamesItalic(fontName)
    ensures f == Hebo <==> NamesBold(fontName) && !NamesItalic(fontName)
    ensures f == Helv <==> !NamesBold(fontName) && !NamesItalic(fontName)
  {
    var lowered := Lower(fontName);
    var initial := Helv;
    var afterBold := if Contains(lowered, "bold") then Hebo else initial;
    var afterItalic := if Contains(lowered, "italic") then Heit else afterBold;
    afterItalic
  }

  /** The classifier looks at the name through `lower()`, so names that differ
      only in letter case get the same font. */
  lemma {:induction false} ClassifyIgnoresCase(a: string, b: string)
    requires Lower(a) == Lower(b)
    ensures Classify(a) == Classify(b)
  {
  }

  /** Lower-casing a name first changes nothing. */
  lemma {:induction false} ClassifyLowered(fontName: string)
    ensures Classify(Lower(fontName)) == Classify(fontName)
  {
    LowerIdempotent(fontName);
    ClassifyIgnoresCase(Lower(fontName), fontName);
  }

  /** A name that carries both markers is classified italic: the bold result
      is overwritten by the later italic test. */
  lemma {:induction false} ItalicOverridesBold(fontName: string)
    requires NamesBold(fontName) && NamesItalic(fontName)
    ensures Classify(fontName) == Heit
  {
  }

  /** "Arial-BoldMT", the bold face of a typical PostScript family, gets "hebo". */
  lemma ClassifyBoldExample(name: string)
    requires name == "Arial-BoldMT"
    ensures Classify(name) == Hebo
  {
    var l := Lower(name);
    assert l[6..10] == Lower(name[6..10]) == "bold";
    assert OccursAt(l, "bold", 6);
    ContainsIffOccurs(l, "bold");
    BoldExampleLowered(name);
    AvoidingCharAvoidsPattern(l, "italic", 5);
  }

  lemma BoldExampleLowered(name: string)
    requires name == "Arial-BoldMT"
    ensures forall i :: 0 <= i < |Lower(name)| ==> Lower(name)[i] != 'c'
  {
    forall i | 0 <= i < |name| ensures Lower(name)[i] != 'c' {
      assert name[i] !in "cC";
    }
  }

  /** "Arial-BoldItalicMT" gets "heit", not "hebo". */
  lemma ClassifyBoldItalicExample(name: string)
    requires name == "Arial-BoldItalicMT"
    ensures Classify(name) == Heit
  {
    var l := Lower(name);
    assert l[10..16] == Lower(name[10..16]) == "italic";
    assert OccursAt(l, "italic", 10);
    ContainsIffOccurs(l, "italic");
  }

  /** A name with neither marker gets the regular face "helv". */
  lemma ClassifyRegularExample(name: string)
    requires name == "TimesNewRomanPSMT"
    ensures Classify(name) == Helv
  {
    RegularExampleLowered(name);
    var l := Lower(name);
    assert !NamesBold(name) by {
      AvoidingCharAvoidsPattern(l, "bold", 0);
    }
    assert !NamesItalic(name) by {
      AvoidingCharAvoidsPattern(l, "italic", 5);
    }
  }

  lemma RegularExampleLowered(name: string)
    requires name == "TimesNewRomanPSMT"
    ensures forall i :: 0 <= i < |Lower(name)| ==> Lower(name)[i] != 'b' && Lower(name)[i] != 'c'
  {
    forall i | 0 <= i < |name| ensures Lower(name)[i] != 'b' && Lower(name)[i] != 'c' {
      assert name[i] !in "bBcC";
    }
  }
}
