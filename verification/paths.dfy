/**
 * `Path.ChangeExtension` and `Path.HasExtension` of .NET on Windows-style
 * paths: the extension is the text from the last '.' that comes after the
 * last directory separator ('/' or '\').
 */
module Paths {
  import opened Base

  predicate IsSeparator(c: char) {
    c == '/' || c == '\\'
  }

  /** Position of the '.' that starts the extension, scanning back from the end. */
  function ExtensionStart(path: string): (k: Option<nat>)
    ensures k.Some? ==> k.value < |path| && path[k.value] == '.'
    ensures k.Some? ==> forall j | k.value < j < |path| :: path[j] != '.' && !IsSeparator(path[j])
  {
    if |path| == 0 then None
    else if path[|path| - 1] == '.' then Some(|path| - 1)
    else if IsSeparator(path[|path| - 1]) then None
    else ExtensionStart(path[..|path| - 1])
  }

  /** The path without its extension (the whole path when it has none). */
  function Stem(path: string): (s: string)
    ensures s <= path
  {
    match ExtensionStart(path)
    case Some(i) => path[..i]
    case None => path
  }

  /** An extension as it is appended: with its leading '.' added when missing. */
  function Dotted(extension: string): (e: string)
    ensures 1 <= |e| && e[0] == '.'
    ensures |extension| > 0 && extension[0] == '.' ==> e == extension
  {
    if |extension| > 0 && extension[0] == '.' then extension else "." + extension
  }

  /** One leading '.', then no further '.' or separator. */
  predicate SimpleExtension(e: string) {
    1 <= |e| && e[0] == '.' && forall j | 1 <= j < |e| :: e[j] != '.' && !IsSeparator(e[j])
  }

  /** `Path.ChangeExtension(path, extension)` for non-null arguments. */
  function ChangeExtension(path: string, extension: string): (r: string)
    ensures |path| == 0 <==> |r| == 0
    ensures |path| > 0 ==> Stem(path) <= r && r[|Stem(path)|..] == Dotted(extension)
  {
    if |path| == 0 then "" else Stem(path) + Dotted(extension)
  }

  /** `Path.HasExtension`: a '.' after the last separator that is not the last character. */
  predicate HasExtension(path: string) {
    match ExtensionStart(path)
    case Some(i) => i != |path| - 1
    case None => false
  }

  /** A simple extension appended to any text is found again as the extension. */
  lemma {:induction false} ExtensionStartOfAppend(stem: string, e: string)
    requires SimpleExtension(e)
    ensures ExtensionStart(stem + e) == Some(|stem|)
    decreases |e|
  {
    var p := stem + e;
    if |e| > 1 {
      assert p[..|p| - 1] == stem + e[..|e| - 1];
      assert p[|p| - 1] == e[|e| - 1];
      ExtensionStartOfAppend(stem, e[..|e| - 1]);
    }
  }

  /** A path whose tail from `k` is a simple extension has its extension start at `k`. */
  lemma ExtensionStartOfSuffix(path: string, k: nat)
    requires k <= |path| && SimpleExtension(path[k..])
    ensures ExtensionStart(path) == Some(k)
  {
    assert path == path[..k] + path[k..];
    ExtensionStartOfAppend(path[..k], path[k..]);
  }

  /** A simple extension of two or more characters at the end makes a path have that extension. */
  lemma SuffixIsExtension(path: string, k: nat)
    requires k + 2 <= |path| && SimpleExtension(path[k..])
    ensures HasExtension(path) && ExtensionStart(path) == Some(k)
  {
    ExtensionStartOfSuffix(path, k);
  }

  /**
   * Changing the extension twice is changing it once to the second
   * extension, whenever the first is simple.
   */
  lemma ChangeExtensionTwice(path: string, e1: string, e2: string)
    requires SimpleExtension(Dotted(e1))
    ensures ChangeExtension(ChangeExtension(path, e1), e2) == ChangeExtension(path, e2)
  {
    if |path| > 0 {
      ExtensionStartOfAppend(Stem(path), Dotted(e1));
    }
  }

  /** A path that already ends with a simple extension is unchanged by setting that extension. */
  lemma ChangeExtensionKeeps(stem: string, e: string)
    requires SimpleExtension(e)
    ensures ChangeExtension(stem + e, e) == stem + e
  {
    ExtensionStartOfAppend(stem, e);
  }
}
