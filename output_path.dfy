/** The name of the rendered image: `os.path.splitext(output_path)[0]`, to
    which the renderer appends `.png`. */
module OutputPath {

  /** The path separators of POSIX paths, and of Windows paths (where `/` is
      accepted besides `\`). */
  const PosixSeparators: set<char> := {'/'}
  const WindowsSeparators: set<char> := {'\\', '/'}

  /** The format the graph is rendered in. */
  const ImageSuffix: string := ".png"

  /** `p.rfind(c)` for any character `c` of `chars`: the last index holding
      one of them, or -1. */
  function LastIndexOf(p: string, chars: set<char>): (i: int)
    ensures -1 <= i < |p|
    ensures 0 <= i ==> p[i] in chars
    ensures forall j :: i < j < |p| ==> p[j] !in chars
    decreases |p|
  {
    if p == [] then -1
    else if p[|p| - 1] in chars then |p| - 1
    else LastIndexOf(p[..|p| - 1], chars)
  }

  predicate HasNonDot(s: string)
  {
    exists k :: 0 <= k < |s| && s[k] != '.'
  }

  /** An extension: a dot followed by characters that are neither dots nor
      separators. */
  predicate IsExtension(e: string, seps: set<char>)
  {
    |e| >= 1 && e[0] == '.' && forall k :: 1 <= k < |e| ==> e[k] != '.' && e[k] !in seps
  }

  /** `os.path.splitext(p)[0]`: the path without the extension of its final
      component. The extension starts at the last dot of that component,
      unless everything before that dot in the component is dots (so
      `.bashrc` has none). */
  function StripExtension(p: string, seps: set<char>): (base: string)
    ensures base <= p
    ensures base == p || IsExtension(p[|base|..], seps)
    ensures base != p ==> LastIndexOf(p, seps) < |base| && HasNonDot(p[LastIndexOf(p, seps) + 1..|base|])
  {
    var sepIndex := LastIndexOf(p, seps);
    var dotIndex := LastIndexOf(p, {'.'});
    if dotIndex > sepIndex && HasNonDot(p[sepIndex + 1..dotIndex]) then p[..dotIndex] else p
  }

  /** The file `save_graph` reports and the renderer writes. */
  function OutputFile(p: string, seps: set<char>): string
  {
    StripExtension(p, seps) + ImageSuffix
  }

  /** The extension is removed exactly when the final component has a dot
      with something other than dots before it in the component. */
  lemma ExtensionRemoved(p: string, seps: set<char>, d: int)
    requires LastIndexOf(p, seps) < d < |p| && p[d] == '.'
    requires HasNonDot(p[LastIndexOf(p, seps) + 1..d])
    ensures StripExtension(p, seps) != p
  {
    var sepIndex := LastIndexOf(p, seps);
    var dotIndex := LastIndexOf(p, {'.'});
    assert d <= dotIndex;
    var k :| 0 <= k < |p[sepIndex + 1..d]| && p[sepIndex + 1..d][k] != '.';
    assert p[sepIndex + 1..dotIndex][k] != '.';
  }

  /** A final component without a dot keeps the path unchanged, and the image
      name is the path with `.png` appended. */
  lemma NoDotUnchanged(p: string, seps: set<char>)
    requires forall k :: LastIndexOf(p, seps) < k < |p| ==> p[k] != '.'
    ensures StripExtension(p, seps) == p
    ensures OutputFile(p, seps) == p + ImageSuffix
  {
  }

  /** The extension is replaced, not appended to. */
  lemma ReplacesExtension()
    ensures OutputFile("out.svg", PosixSeparators) == "out.png"
  {
    var p := "out.svg";
    assert p[3] == '.' && p[4] != '.' && p[5] != '.' && p[6] != '.';
    assert LastIndexOf(p, {'.'}) == 3;
    assert LastIndexOf(p, PosixSeparators) == -1;
    assert HasNonDot(p[0..3]) by { assert p[0..3][0] == 'o'; }
    assert p[..3] + ".png" == "out.png";
  }

  /** Only the last extension goes. */
  lemma ReplacesLastExtensionOnly()
    ensures OutputFile("a.tar.gz", PosixSeparators) == "a.tar.png"
  {
    var p := "a.tar.gz";
    assert p[5] == '.' && p[6] != '.' && p[7] != '.';
    assert LastIndexOf(p, {'.'}) == 5;
    assert LastIndexOf(p, PosixSeparators) == -1;
    assert HasNonDot(p[0..5]) by { assert p[0..5][0] == 'a'; }
    assert p[..5] + ".png" == "a.tar.png";
  }

  /** A leading dot does not start an extension. */
  lemma KeepsLeadingDot()
    ensures OutputFile(".dot", PosixSeparators) == ".dot.png"
  {
    var p := ".dot";
    assert p[0] == '.' && p[1] != '.' && p[2] != '.' && p[3] != '.';
    assert LastIndexOf(p, {'.'}) == 0;
    assert LastIndexOf(p, PosixSeparators) == -1;
    assert !HasNonDot(p[0..0]);
    assert StripExtension(p, PosixSeparators) == p;
  }

  /** A dot in a directory name is not an extension, with either kind of
      separator. */
  lemma IgnoresDirectoryDots()
    ensures OutputFile("d.x/g", PosixSeparators) == "d.x/g.png"
    ensures OutputFile("d.x\\g", WindowsSeparators) == "d.x\\g.png"
  {
    var p, q := "d.x/g", "d.x\\g";
    assert p[3] == '/' && p[4] != '/' && p[4] != '.';
    assert q[3] == '\\' && q[4] != '\\' && q[4] != '/' && q[4] != '.';
    NoDotUnchanged(p, PosixSeparators);
    NoDotUnchanged(q, WindowsSeparators);
  }
}
