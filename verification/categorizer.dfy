/**
 The extension classifier of file_organizer.py (lines 89-103): the
 extension loses its leading dots, is uppercased, and picks the category
 folder a file is moved into.
 */
module Categorizer {
  import opened Text

  /** `s.lstrip('.')` */
  function StripLeadingDots(s: string): string {
    if s != [] && s[0] == '.' then StripLeadingDots(s[1..]) else s
  }

  /** Stripping removes a prefix made only of dots, and all of it. */
  lemma {:induction false} StripLeadingDotsShape(s: string)
    ensures var r := StripLeadingDots(s);
      && |r| <= |s| && r == s[|s| - |r|..]
      && (forall k :: 0 <= k < |s| - |r| ==> s[k] == '.')
      && (r == [] || r[0] != '.')
  {
    if s != [] && s[0] == '.' {
      StripLeadingDotsShape(s[1..]);
      var r := StripLeadingDots(s[1..]);
      assert s[1..][|s| - 1 - |r|..] == s[|s| - |r|..];
      forall k | 0 <= k < |s| - |r| ensures s[k] == '.' {
        if k > 0 { assert s[k] == s[1..][k - 1]; }
      }
    }
  }

  /** `extension.lstrip('.').upper()` */
  function Token(ext: string): string {
    Upper(StripLeadingDots(ext))
  }

  const ImageTokens: set<string> := {"JPG", "JPEG", "PNG", "GIF"}
  const VideoTokens: set<string> := {"MP4", "MOV", "AVI"}
  const DocumentTokens: set<string> := {"DOCX", "PDF", "TXT"}

  const Images: string := "Images"
  const Videos: string := "Videos"
  const Documents: string := "Documents"
  const Uncategorized: string := "Uncategorized"
  const FilesSuffix: string := " Files"

  predicate IsKnownToken(t: string) {
    t in ImageTokens || t in VideoTokens || t in DocumentTokens
  }

  /** No token belongs to two named groups. */
  lemma GroupsDisjoint()
    ensures ImageTokens !! VideoTokens
    ensures ImageTokens !! DocumentTokens
    ensures VideoTokens !! DocumentTokens
  {
    assert "MP4" !in ImageTokens && "MOV" !in ImageTokens && "AVI" !in ImageTokens;
    assert "DOCX" !in ImageTokens && "PDF" !in ImageTokens && "TXT" !in ImageTokens;
    assert "DOCX" !in VideoTokens && "PDF" !in VideoTokens && "TXT" !in VideoTokens;
  }

  /** The fixed folder names are pairwise distinct, and named tokens are
      never empty. */
  lemma FixedNamesDistinct()
    ensures Images != Videos && Images != Documents && Images != Uncategorized
    ensures Videos != Documents && Videos != Uncategorized && Documents != Uncategorized
    ensures [] !in ImageTokens && [] !in VideoTokens && [] !in DocumentTokens
  {
    assert Images[0] != Videos[0] && Images[0] != Documents[0] && Images[0] != Uncategorized[0];
    assert Videos[0] != Documents[0] && Videos[0] != Uncategorized[0] && Documents[0] != Uncategorized[0];
  }

  /** The fallback label `"<TOKEN> Files"` of a non-empty, unknown token. */
  predicate IsFallbackLabel(folder: string, t: string) {
    folder == t + FilesSuffix
  }

  /** The category folder name for a file with extension `ext`. The named
      groups win, any other non-empty token gets its own `"<TOKEN> Files"`
      folder, and an empty token (no extension, or only dots) means
      `Uncategorized`. The result is never empty. */
  function Category(ext: string): (r: string)
    ensures r != []
    ensures r == Images <==> Token(ext) in ImageTokens
    ensures r == Videos <==> Token(ext) in VideoTokens
    ensures r == Documents <==> Token(ext) in DocumentTokens
    ensures r == Uncategorized <==> Token(ext) == []
    ensures Token(ext) != [] && !IsKnownToken(Token(ext)) <==> IsFallbackLabel(r, Token(ext))
  {
    var t := Token(ext);
    FallbackIsNotFixed(t);
    GroupsDisjoint();
    FixedNamesDistinct();
    if t in ImageTokens then Images
    else if t in VideoTokens then Videos
    else if t in DocumentTokens then Documents
    else if t != [] then t + FilesSuffix
    else Uncategorized
  }

  /** No fallback label collides with one of the fixed labels. */
  lemma FallbackIsNotFixed(t: string)
    ensures t != [] ==> t + FilesSuffix !in {Images, Videos, Documents, Uncategorized}
    ensures !IsFallbackLabel(Images, t) && !IsFallbackLabel(Videos, t)
    ensures !IsFallbackLabel(Documents, t) && !IsFallbackLabel(Uncategorized, t)
  {
    var l := t + FilesSuffix;
    assert l[|l| - 6..] == FilesSuffix;
    assert Images[|Images| - 6..] != FilesSuffix;
    assert Videos[|Videos| - 6..] != FilesSuffix;
    assert Documents[|Documents| - 6..] != FilesSuffix;
    assert Uncategorized[|Uncategorized| - 6..] != FilesSuffix;
  }

  /** Both sides of the classifier fall in the same group. */
  predicate SameGroup(t1: string, t2: string) {
    || (t1 in ImageTokens && t2 in ImageTokens)
    || (t1 in VideoTokens && t2 in VideoTokens)
    || (t1 in DocumentTokens && t2 in DocumentTokens)
  }

  /** Two extensions land in the same folder exactly when their tokens are
      equal or belong to the same named group: the classifier depends on the
      token alone, and distinct unknown tokens never share a folder. */
  lemma CategoryEqualIff(e1: string, e2: string)
    ensures Category(e1) == Category(e2) <==> Token(e1) == Token(e2) || SameGroup(Token(e1), Token(e2))
  {
    var t1, t2 := Token(e1), Token(e2);
    if Category(e1) == Category(e2) && !SameGroup(t1, t2) {
      if IsFallbackLabel(Category(e1), t1) {
        assert IsFallbackLabel(Category(e2), t2);
        var n := |Category(e1)| - |FilesSuffix|;
        assert t1 == Category(e1)[..n] == t2;
      }
    }
  }

  /** The token of an extension as `splitext` produces it: the text after
      its single leading dot, uppercased. */
  lemma TokenOfExtension(ext: string)
    requires ext != [] && ext[0] == '.' && '.' !in ext[1..]
    ensures Token(ext) == Upper(ext[1..])
  {
    if |ext| > 1 {
      assert ext[1..][0] == ext[1];
    }
    assert StripLeadingDots(ext[1..]) == ext[1..];
  }

  /** One extension from each named group. */
  lemma CategoryExamples()
    ensures Category(".jpg") == Images
    ensures Category(".MOV") == Videos
    ensures Category(".Pdf") == Documents
  {
    var jpg, mov, pdf := ".jpg", ".MOV", ".Pdf";
    TokenOfExtension(jpg);
    assert Upper(jpg[1..]) == "JPG";
    TokenOfExtension(mov);
    assert Upper(mov[1..]) == "MOV";
    TokenOfExtension(pdf);
    assert Upper(pdf[1..]) == "PDF";
  }

  /** An unknown extension gets a folder named after its uppercased token. */
  lemma CategoryFallbackExample()
    ensures Category(".zip") == "ZIP Files"
  {
    var zip := ".zip";
    TokenOfExtension(zip);
    assert Upper(zip[1..]) == "ZIP";
  }

  /** A file without an extension, and one whose extension is a bare dot,
      are both uncategorized. */
  lemma CategoryOfNoExtension()
    ensures Category([]) == Uncategorized
    ensures Category(".") == Uncategorized
  {
    var dot := ".";
    assert StripLeadingDots(dot) == StripLeadingDots(dot[1..]);
  }
}
