/** `get_file_extension`: the extension of a URL's path as
    `os.path.splitext` computes it for '/'-separated paths, lower-cased.
    The path itself (what `urlparse(url).path` gives) is an input.
 */
module FileExt {

  /** `s.rfind(c)`: the last position holding `c`, or -1. */
  function RFind(s: string, c: char): (r: int)
    ensures -1 <= r < |s|
    ensures r >= 0 ==> s[r] == c
    ensures forall k :: r < k < |s| ==> s[k] != c
  {
    if s == [] then -1
    else if s[|s| - 1] == c then |s| - 1
    else RFind(s[..|s| - 1], c)
  }

  /** Some character of `p[lo..hi]` is not a dot. */
  predicate HasNonDot(p: string, lo: int, hi: int)
    requires 0 <= lo && hi <= |p|
  {
    exists k :: lo <= k < hi && p[k] != '.'
  }

  /** `os.path.splitext(p)` with '/' as the separator: the extension starts
      at the last dot of the last path component, unless everything before
      that dot in the component is dots (a name such as ".pdf" has no
      extension). */
  function SplitExt(p: string): (r: (string, string))
    ensures r.0 + r.1 == p
    ensures r.1 == "" || (r.1[0] == '.' && '.' !in r.1[1..] && '/' !in r.1)
  {
    var sep, dot := RFind(p, '/'), RFind(p, '.');
    if dot > sep && HasNonDot(p, sep + 1, dot) then
      assert forall k :: 0 <= k < |p[dot..]| ==> p[dot..][k] == p[dot + k];
      (p[..dot], p[dot..])
    else (p, "")
  }

  /** ASCII `str.lower()` of one character. */
  function LowerChar(c: char): char {
    if 'A' <= c <= 'Z' then (c as int + 32) as char else c
  }

  function Lower(s: string): (r: string)
    ensures |r| == |s|
    ensures forall i :: 0 <= i < |s| ==> r[i] == LowerChar(s[i])
  {
    seq(|s|, i requires 0 <= i < |s| => LowerChar(s[i]))
  }

  /** `get_file_extension`: the lower-cased `splitext` extension of the path. */
  function FileExtension(path: string): string {
    Lower(SplitExt(path).1)
  }

  /** The extension is empty, or a lower-cased single-dot suffix of the
      path without a '/'. */
  lemma FileExtensionShape(path: string)
    ensures var ext := FileExtension(path);
      (ext == "" || (ext[0] == '.' && '.' !in ext[1..] && '/' !in ext))
      && (ext != "" ==> |ext| <= |path| && ext == Lower(path[|path| - |ext|..]))
      && forall i :: 0 <= i < |ext| ==> !('A' <= ext[i] <= 'Z')
  {
    var (root, e) := SplitExt(path);
    assert path[|path| - |e|..] == e;
    LowerExtension(e);
  }

  /** Lower-casing an extension keeps it an extension. */
  lemma LowerExtension(e: string)
    requires e == "" || (e[0] == '.' && '.' !in e[1..] && '/' !in e)
    ensures var l := Lower(e); l == "" || (l[0] == '.' && '.' !in l[1..] && '/' !in l)
  {
    LowerKeepsNonLetter(e, '/');
    if e != "" {
      LowerTail(e);
      LowerKeepsNonLetter(e[1..], '.');
    }
  }

  /** Lower-casing neither adds nor removes a character that is not a letter. */
  lemma LowerKeepsNonLetter(s: string, c: char)
    requires !('A' <= c <= 'Z') && !('a' <= c <= 'z')
    ensures c in Lower(s) <==> c in s
  {
    var r := Lower(s);
    if c in s {
      var i :| 0 <= i < |s| && s[i] == c;
      assert r[i] == c;
    }
    if c in r {
      var i :| 0 <= i < |r| && r[i] == c;
      assert s[i] == c;
    }
  }

  /** Lower-casing commutes with dropping the first character. */
  lemma LowerTail(s: string)
    requires s != ""
    ensures Lower(s)[1..] == Lower(s[1..])
  {
  }

  /** The extensions `process_attachments` downloads and decodes. */
  predicate Eligible(ext: string) {
    ext == ".pdf" || ext == ".docx" || ext == ".doc"
  }

  /** A single-dot extension after a file name with at least one non-dot
      character is the lower-cased extension ("report.v2.PDF" gives ".pdf"). */
  lemma NamedFileExtension(dir: string, name: string, ext: string)
    requires '/' !in name && exists k :: 0 <= k < |name| && name[k] != '.'
    requires ext != [] && ext[0] == '.' && '.' !in ext[1..] && '/' !in ext
    ensures FileExtension(dir + "/" + name + ext) == Lower(ext)
  {
    var p := dir + "/" + name + ext;
    var sep, dot := |dir|, |dir| + 1 + |name|;
    assert p[sep] == '/';
    assert forall k :: sep < k < |p| ==> p[k] != '/' by {
      forall k | sep < k < |p| ensures p[k] != '/' {
        if k < dot { assert p[k] == name[k - sep - 1]; } else { assert p[k] == ext[k - dot]; }
      }
    }
    assert p[dot] == '.';
    assert forall k :: dot < k < |p| ==> p[k] != '.' by {
      forall k | dot < k < |p| ensures p[k] != '.' {
        assert p[k] == ext[1..][k - dot - 1];
      }
    }
    assert RFind(p, '/') == sep;
    assert RFind(p, '.') == dot;
    var k :| 0 <= k < |name| && name[k] != '.';
    assert p[sep + 1 + k] == name[k];
    assert HasNonDot(p, sep + 1, dot);
    assert p[dot..] == ext;
  }

  /** A last path component that is only a dot and an extension (a hidden
      file such as ".docx") has no extension. */
  lemma DotFileHasNoExtension(dir: string, ext: string)
    requires ext != [] && ext[0] == '.' && '.' !in ext[1..] && '/' !in ext
    ensures FileExtension(dir + "/" + ext) == ""
  {
    var p := dir + "/" + ext;
    var sep := |dir|;
    assert p[sep] == '/' && p[sep + 1] == '.';
    assert forall k :: sep < k < |p| ==> p[k] != '/' by {
      forall k | sep < k < |p| ensures p[k] != '/' { assert p[k] == ext[k - sep - 1]; }
    }
    assert forall k :: sep + 1 < k < |p| ==> p[k] != '.' by {
      forall k | sep + 1 < k < |p| ensures p[k] != '.' { assert p[k] == ext[1..][k - sep - 2]; }
    }
    assert RFind(p, '/') == sep;
    assert RFind(p, '.') == sep + 1;
  }
}
