/**
 * File names as the editor sees them: the last name component of a path and
 * the rule that gives a name without a dot the default extension ".txt".
 */
module FileNames {

  /** A normalised, absolute path as a file chooser hands it back. */
  type Path = string

  /** The name separator of the host file system. */
  const Separator: char := '/'

  /** Appended by Save As when the chosen name has no dot. */
  const DefaultExtension: string := ".txt"

  /** The last name component of a path: everything after the final separator. */
  function BaseName(p: Path): (name: string)
    ensures |name| <= |p|
  {
    if p == [] || p[|p| - 1] == Separator then []
    else BaseName(p[..|p| - 1]) + [p[|p| - 1]]
  }

  /**
   * The name is the part of the path after its last separator: a suffix of
   * the path without separators, preceded by a separator unless it is all of it.
   */
  lemma {:induction false} BaseNameIsLastComponent(p: Path)
    ensures var name := BaseName(p);
      Separator !in name && |name| <= |p| && p[|p| - |name|..] == name &&
      (|name| < |p| ==> p[|p| - |name| - 1] == Separator)
    decreases |p|
  {
    if p != [] && p[|p| - 1] != Separator {
      var init := p[..|p| - 1];
      BaseNameIsLastComponent(init);
      var name := BaseName(init);
      assert BaseName(p) == name + [p[|p| - 1]];
      assert p[|p| - |name| - 1..] == init[|init| - |name|..] + [p[|p| - 1]];
    }
  }

  /** The path Save As writes to: the chosen path, with ".txt" added when its name holds no dot. */
  function WithDefaultExt(p: Path): (q: Path)
    ensures p <= q && |q| <= |p| + |DefaultExtension|
  {
    if '.' in BaseName(p) then p else p + DefaultExtension
  }

  /** Appending text without a separator extends the last name component and nothing else. */
  lemma {:induction false} BaseNameAppend(p: Path, suffix: string)
    requires Separator !in suffix
    ensures BaseName(p + suffix) == BaseName(p) + suffix
    decreases |suffix|
  {
    if suffix != [] {
      var init := suffix[..|suffix| - 1];
      var q := p + suffix;
      assert Separator !in init by {
        assert forall c :: c in init ==> c in suffix;
      }
      assert BaseName(q) == BaseName(p + init) + [suffix[|suffix| - 1]] by {
        assert suffix[|suffix| - 1] in suffix;
        assert q[..|q| - 1] == p + init;
      }
      BaseNameAppend(p, init);
      assert init + [suffix[|suffix| - 1]] == suffix;
    } else {
      assert p + suffix == p;
    }
  }

  /**
   * The saved name always carries a dot; the path is left alone exactly when its
   * name already had one, and otherwise gains ".txt" in the same directory.
   */
  lemma DefaultExtRule(p: Path)
    ensures '.' in BaseName(WithDefaultExt(p))
    ensures WithDefaultExt(p) == p <==> '.' in BaseName(p)
    ensures '.' !in BaseName(p) ==> WithDefaultExt(p) == p + ".txt"
    ensures '.' !in BaseName(p) ==> BaseName(WithDefaultExt(p)) == BaseName(p) + ".txt"
  {
    if '.' !in BaseName(p) {
      assert Separator !in DefaultExtension;
      BaseNameAppend(p, DefaultExtension);
      assert '.' == (BaseName(p) + DefaultExtension)[|BaseName(p)|];
      assert |p + DefaultExtension| != |p|;
    }
  }

  /** Choosing the name Save As produced a second time does not change it again. */
  lemma DefaultExtIdempotent(p: Path)
    ensures WithDefaultExt(WithDefaultExt(p)) == WithDefaultExt(p)
  {
    DefaultExtRule(p);
  }
}
