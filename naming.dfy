/**
 * The directory name given to each program in per-program (decompile) mode:
 * every space and every slash of the program name becomes an underscore.
 */
module Naming {

  /**
   * Replaces every occurrence of the character `from` by `to` (Go's
   * strings.ReplaceAll on one-character strings): same length, every `from`
   * turned into `to` (so no `from` is left when the two differ), every other
   * character unchanged in place.
   */
  function ReplaceAll(s: string, from: char, to: char): (r: string)
    ensures |r| == |s|
    ensures from != to ==> from !in r
    ensures forall i :: 0 <= i < |s| && s[i] == from ==> r[i] == to
    ensures forall i :: 0 <= i < |s| && s[i] != from ==> r[i] == s[i]
  {
    seq(|s|, i requires 0 <= i < |s| => if s[i] == from then to else s[i])
  }

  /** What sanitizing does to one character: a space or a slash becomes '_'. */
  function SanitizeChar(ch: char): char
  {
    if ch == ' ' || ch == '/' then '_' else ch
  }

  /** The characters that sanitizing maps to the filler '_' (the filler itself included). */
  predicate Collapses(ch: char)
  {
    ch == ' ' || ch == '/' || ch == '_'
  }

  /**
   * sanitizeName: spaces first, then slashes, replaced by '_'. The result has
   * the input's length, holds no space and no slash, and keeps every other
   * character at its position.
   */
  function SanitizeName(name: string): (r: string)
    ensures |r| == |name|
    ensures forall i :: 0 <= i < |name| ==> r[i] == SanitizeChar(name[i])
    ensures ' ' !in r && '/' !in r
  {
    ReplaceAll(ReplaceAll(name, ' ', '_'), '/', '_')
  }

  /** Sanitizing a sanitized name changes nothing. */
  lemma SanitizeIdempotent(name: string)
    ensures SanitizeName(SanitizeName(name)) == SanitizeName(name)
  {
    var once := SanitizeName(name);
    var twice := SanitizeName(once);
    forall i | 0 <= i < |once|
      ensures twice[i] == once[i]
    {
      assert once[i] == SanitizeChar(name[i]);
    }
  }

  /** Sanitizing works on each part of a concatenated name separately. */
  lemma SanitizeConcat(x: string, y: string)
    ensures SanitizeName(x + y) == SanitizeName(x) + SanitizeName(y)
  {
    var whole, parts := SanitizeName(x + y), SanitizeName(x) + SanitizeName(y);
    forall i | 0 <= i < |x + y|
      ensures whole[i] == parts[i]
    {
      assert whole[i] == SanitizeChar((x + y)[i]);
      if i < |x| {
        assert (x + y)[i] == x[i] && parts[i] == SanitizeName(x)[i];
      } else {
        assert (x + y)[i] == y[i - |x|] && parts[i] == SanitizeName(y)[i - |x|];
      }
    }
  }

  /**
   * Two names get the same sanitized name exactly when they have the same
   * length and, position by position, agree or both hold one of ' ', '/', '_'.
   */
  lemma SameSanitizedNameIff(a: string, b: string)
    ensures SanitizeName(a) == SanitizeName(b) <==>
            |a| == |b| && forall i :: 0 <= i < |a| ==> a[i] == b[i] || (Collapses(a[i]) && Collapses(b[i]))
  {
    var sa, sb := SanitizeName(a), SanitizeName(b);
    if sa == sb {
      forall i | 0 <= i < |a|
        ensures a[i] == b[i] || (Collapses(a[i]) && Collapses(b[i]))
      {
        assert SanitizeChar(a[i]) == sa[i] == sb[i] == SanitizeChar(b[i]);
      }
    }
    if |a| == |b| && forall i :: 0 <= i < |a| ==> a[i] == b[i] || (Collapses(a[i]) && Collapses(b[i])) {
      forall i | 0 <= i < |a|
        ensures sa[i] == sb[i]
      {
        assert sa[i] == SanitizeChar(a[i]) && sb[i] == SanitizeChar(b[i]);
      }
    }
  }

  /**
   * Names that differ only by a space against a slash at one position are
   * distinct but share a sanitized name: "Foo Bar" and "Foo/Bar" both become "Foo_Bar".
   */
  lemma SpaceAndSlashCollide(front: string, back: string)
    ensures front + " " + back != front + "/" + back
    ensures SanitizeName(front + " " + back) == SanitizeName(front + "/" + back)
            == SanitizeName(front) + "_" + SanitizeName(back)
  {
    assert (front + " " + back)[|front|] == ' ';
    assert (front + "/" + back)[|front|] == '/';
    SanitizeConcat(front + " ", back);
    SanitizeConcat(front, " ");
    SanitizeConcat(front + "/", back);
    SanitizeConcat(front, "/");
    assert SanitizeName(" ")[0] == '_' && SanitizeName("/")[0] == '_';
    assert SanitizeName(" ") == "_" == SanitizeName("/");
  }

  /** The distinct program names "Foo Bar" and "Foo/Bar" share the sanitized name "Foo_Bar". */
  lemma FooBarCollision()
    ensures "Foo Bar" != "Foo/Bar"
    ensures SanitizeName("Foo Bar") == SanitizeName("Foo/Bar") == "Foo_Bar"
  {
    SpaceAndSlashCollide("Foo", "Bar");
    assert "Foo" + " " + "Bar" == "Foo Bar" && "Foo" + "/" + "Bar" == "Foo/Bar";
    assert SanitizeName("Foo") == "Foo" && SanitizeName("Bar") == "Bar";
  }

  /**
   * The empty name and "." are left unchanged; joined to the output directory
   * both denote that directory itself.
   */
  lemma CurrentNameSurvives()
    ensures SanitizeName("") == ""
    ensures SanitizeName(".") == "."
  {
    assert SanitizeName(".")[0] == '.';
  }

  /** Sanitizing leaves "..", so that name still denotes the parent of the output directory. */
  lemma ParentNameSurvives()
    ensures SanitizeName("..") == ".."
  {
    var r := SanitizeName("..");
    assert r[0] == '.' && r[1] == '.';
  }
}
