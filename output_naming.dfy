/**
 * Where the translated book goes: the input's base name without its extension,
 * followed by "_translated.epub", inside "translated_books" under the working
 * directory. Paths follow POSIX `os.path` rules ('/' is the only separator).
 */
module OutputNaming {
  import opened Strings

  const Suffix: string := "_translated.epub"
  const OutputDirectory: string := "translated_books"

  /** `os.path.basename(path)`: what follows the last '/'. */
  function BaseName(path: string): (name: string)
    ensures '/' !in name && |name| <= |path|
    ensures forall i :: 0 <= i < |name| ==> name[i] == path[|path| - |name| + i]
    ensures |name| < |path| ==> path[|path| - |name| - 1] == '/'
  {
    AfterLast(path, '/')
  }

  predicate AllDots(s: string)
  {
    forall i :: 0 <= i < |s| ==> s[i] == '.'
  }

  /**
   * `os.path.splitext(name)[0]`: cut at the last dot, unless every character
   * before that dot is itself a dot (so ".epub" and "..epub" keep their dots).
   */
  function StripExtension(name: string): (root: string)
    ensures |root| <= |name| && forall i :: 0 <= i < |root| ==> root[i] == name[i]
    ensures root == name || (name[|root|] == '.' && '.' !in name[|root| + 1..] && !AllDots(root))
  {
    var ext := AfterLast(name, '.');
    if |ext| == |name| then name
    else
      var dot := |name| - |ext| - 1;
      assert name[dot + 1..] == ext;
      if AllDots(name[..dot]) then name else name[..dot]
  }

  /** A last dot with something other than dots before it is where the extension is cut. */
  lemma {:induction false} StripExtensionAtLastDot(name: string, d: nat)
    requires d < |name| && name[d] == '.' && '.' !in name[d + 1..]
    requires !AllDots(name[..d])
    ensures StripExtension(name) == name[..d]
  {
    AfterLastAt(name, '.', d);
    var ext := AfterLast(name, '.');
    assert |name| - |ext| - 1 == d;
  }

  /** `os.path.join(a, b)` for two components. */
  function Join(a: string, b: string): (joined: string)
    ensures EndsWith(joined, b)
    ensures b != [] && b[0] == '/' ==> joined == b
    ensures (b == [] || b[0] != '/') ==> StartsWith(joined, a)
  {
    if b != [] && b[0] == '/' then b
    else if a == [] || a[|a| - 1] == '/' then a + b
    else a + "/" + b
  }

  /**
   * A relative `b` follows `a` directly, with one '/' between them exactly when
   * `a` is non-empty and does not already end in '/'.
   */
  lemma JoinSeparates(a: string, b: string)
    requires b == [] || b[0] != '/'
    ensures |Join(a, b)| == |a| + |b| + (if a != [] && a[|a| - 1] != '/' then 1 else 0)
    ensures a != [] && a[|a| - 1] != '/' ==> Join(a, b)[|a|] == '/'
  {
  }

  /** `f"{epub_name}_translated.epub"`, with `epub_name` the stripped base name of the input. */
  function OutputName(inputPath: string): (name: string)
    ensures EndsWith(name, Suffix)
  {
    StripExtension(BaseName(inputPath)) + Suffix
  }

  /** `os.path.join(os.getcwd(), "translated_books")` */
  function OutputDir(cwd: string): (dir: string)
    ensures StartsWith(dir, cwd) && EndsWith(dir, OutputDirectory)
  {
    Join(cwd, OutputDirectory)
  }

  /** "translated_books" sits directly under the working directory, behind one '/' unless `cwd` already ends in one. */
  lemma OutputDirUnderCwd(cwd: string)
    ensures OutputDir(cwd) == (if cwd != [] && cwd[|cwd| - 1] != '/' then cwd + "/" else cwd) + OutputDirectory
  {
  }

  /** `os.path.join(translated_books_dir, output_path)`: where the book is moved. */
  function FinalPath(cwd: string, inputPath: string): (path: string)
    ensures EndsWith(path, OutputName(inputPath))
  {
    Join(OutputDir(cwd), OutputName(inputPath))
  }

  /** Stripping the extension only removes characters. */
  lemma {:induction false} StripExtensionKeepsOut(name: string, c: char)
    requires c !in name
    ensures c !in StripExtension(name)
  {
    var root := StripExtension(name);
    assert forall i :: 0 <= i < |root| ==> root[i] == name[i];
  }

  /** The output name is a plain file name: it never contains '/'. */
  lemma {:induction false} OutputNameIsPlain(inputPath: string)
    ensures '/' !in OutputName(inputPath)
  {
    var base := BaseName(inputPath);
    StripExtensionKeepsOut(base, '/');
    PlainWithSuffix(StripExtension(base));
  }

  lemma {:induction false} PlainWithSuffix(root: string)
    requires '/' !in root
    ensures '/' !in root + Suffix
  {
  }

  /** The output directory is always a path whose last component is "translated_books". */
  lemma {:induction false} OutputDirEndsInOutputDirectory(cwd: string)
    ensures BaseName(OutputDir(cwd)) == OutputDirectory
    ensures OutputDir(cwd) != [] && OutputDir(cwd)[|OutputDir(cwd)| - 1] != '/'
  {
    var dir := OutputDir(cwd);
    assert '/' !in OutputDirectory;
    if cwd == [] || cwd[|cwd| - 1] == '/' {
      assert AfterLast(dir, '/') == OutputDirectory by {
        assert dir == cwd + OutputDirectory;
        AfterLastOfTail(cwd, '/', OutputDirectory);
      }
    } else {
      assert AfterLast(dir, '/') == OutputDirectory by {
        assert dir == (cwd + "/") + OutputDirectory;
        AfterLastOfTail(cwd + "/", '/', OutputDirectory);
      }
    }
  }

  /**
   * The book is moved to `<cwd>/translated_books/<output name>`: the final path
   * lies directly inside the output directory, and its base name is the output name.
   */
  lemma {:induction false} FinalPathInOutputDir(cwd: string, inputPath: string)
    ensures FinalPath(cwd, inputPath) == OutputDir(cwd) + "/" + OutputName(inputPath)
    ensures BaseName(FinalPath(cwd, inputPath)) == OutputName(inputPath)
  {
    var dir := OutputDir(cwd);
    var name := OutputName(inputPath);
    OutputNameIsPlain(inputPath);
    OutputDirEndsInOutputDirectory(cwd);
    assert name != [] ==> name[0] != '/';
    assert FinalPath(cwd, inputPath) == (dir + "/") + name;
    AfterLastOfTail(dir + "/", '/', name);
  }

  /**
   * Splitting the extension off the output name gives back the input's stem
   * followed by "_translated", and the extension left is "epub".
   */
  lemma {:induction false} OutputNameKeepsStem(inputPath: string)
    ensures StripExtension(OutputName(inputPath)) == StripExtension(BaseName(inputPath)) + "_translated"
    ensures AfterLast(OutputName(inputPath), '.') == "epub"
  {
    SuffixedName(StripExtension(BaseName(inputPath)));
  }

  lemma {:induction false} SuffixedName(root: string)
    ensures StripExtension(root + Suffix) == root + "_translated"
    ensures AfterLast(root + Suffix, '.') == "epub"
  {
    var stem := root + "_translated";
    assert root + Suffix == stem + ".epub";
    StemAndExtension(stem);
  }

  lemma {:induction false} StemAndExtension(stem: string)
    requires |stem| > 0 && stem[|stem| - 1] == 'd'
    ensures StripExtension(stem + ".epub") == stem
    ensures AfterLast(stem + ".epub", '.') == "epub"
  {
    var name := stem + ".epub";
    assert name == (stem + ".") + "epub";
    AfterLastOfTail(stem + ".", '.', "epub");
    assert name[|stem|] == '.' && name[..|stem|] == stem && name[|stem| + 1..] == "epub";
    assert !AllDots(stem);
    StripExtensionAtLastDot(name, |stem|);
  }

}
