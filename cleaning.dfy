/** `clean_text`: the lossy normalisation applied to every extracted
    attachment text. It keeps newline, tab, carriage return and printable
    ASCII, drops every other character, then strips surrounding whitespace
    as Python's `str.strip()` does.
 */
module Cleaning {

  /** The characters `clean_text` keeps. */
  predicate Kept(c: char) {
    c == '\n' || c == '\t' || c == '\r' || (32 <= c as int < 127)
  }

  /** Python's `str.isspace`, the characters `str.strip()` removes. */
  predicate IsSpace(c: char) {
    var o := c as int;
    (9 <= o <= 13) || (28 <= o <= 32) || o == 133 || o == 160 || o == 5760
    || (8192 <= o <= 8202) || o == 8232 || o == 8233 || o == 8239 || o == 8287 || o == 12288
  }

  /** The kept characters of `s`, in order. */
  function Filter(s: string): (r: string)
    ensures |r| <= |s|
    ensures forall i :: 0 <= i < |r| ==> Kept(r[i])
  {
    if s == [] then []
    else Filter(s[..|s| - 1]) + (if Kept(s[|s| - 1]) then [s[|s| - 1]] else [])
  }

  /** How many whitespace characters open `s`. */
  function LeadingSpace(s: string): (n: nat)
    ensures n <= |s|
    ensures forall k :: 0 <= k < n ==> IsSpace(s[k])
    ensures n < |s| ==> !IsSpace(s[n])
  {
    if s != [] && IsSpace(s[0]) then 1 + LeadingSpace(s[1..]) else 0
  }

  /** How many whitespace characters close `s`. */
  function TrailingSpace(s: string): (n: nat)
    ensures n <= |s|
    ensures forall k :: |s| - n <= k < |s| ==> IsSpace(s[k])
    ensures n < |s| ==> !IsSpace(s[|s| - 1 - n])
  {
    if s != [] && IsSpace(s[|s| - 1]) then 1 + TrailingSpace(s[..|s| - 1]) else 0
  }

  /** `str.lstrip()` */
  function TrimStart(s: string): string {
    s[LeadingSpace(s)..]
  }

  /** `str.rstrip()` */
  function TrimEnd(s: string): string {
    s[..|s| - TrailingSpace(s)]
  }

  /** `str.strip()` */
  function Strip(s: string): string {
    TrimEnd(TrimStart(s))
  }

  /** What `clean_text` returns for `s`. */
  function Cleaned(s: string): string {
    Strip(Filter(s))
  }

  /** `clean_text`: build the filtered text character by character, then strip it. */
  method CleanText(text: string) returns (cleaned: string)
    ensures cleaned == Cleaned(text)
  {
    if text == "" {
      return "";
    }
    var buf := "";
    for i := 0 to |text|
      invariant buf == Filter(text[..i])
    {
      var c := text[i];
      if c == '\n' || c == '\t' || c == '\r' || (32 <= c as int && c as int < 127) {
        buf := buf + [c];
      }
      assert text[..i + 1][..i] == text[..i];
    }
    assert text[..|text|] == text;
    cleaned := Strip(buf);
  }

  /** `a` is `b` with some characters deleted (order kept). */
  predicate IsSubsequence(a: string, b: string)
    decreases |b|
  {
    a == [] ||
    (b != [] &&
     ((a[|a| - 1] == b[|b| - 1] && IsSubsequence(a[..|a| - 1], b[..|b| - 1]))
      || IsSubsequence(a, b[..|b| - 1])))
  }

  lemma {:induction false} SubsequenceRefl(a: string)
    ensures IsSubsequence(a, a)
    decreases |a|
  {
    if a != [] {
      SubsequenceRefl(a[..|a| - 1]);
    }
  }

  lemma {:induction false} SubsequenceOfExtension(a: string, b: string)
    ensures IsSubsequence(a, a + b)
    decreases |b|
  {
    if b == [] {
      assert a + b == a;
      SubsequenceRefl(a);
    } else {
      SubsequenceOfExtension(a, b[..|b| - 1]);
      assert (a + b)[..|a + b| - 1] == a + b[..|b| - 1];
    }
  }

  lemma {:induction false} SuffixIsSubsequence(a: string, b: string)
    ensures IsSubsequence(b, a + b)
    decreases |b|
  {
    if b != [] {
      SuffixIsSubsequence(a, b[..|b| - 1]);
      assert (a + b)[..|a + b| - 1] == a + b[..|b| - 1];
    }
  }

  lemma {:induction false} SubsequenceTrans(a: string, b: string, c: string)
    requires IsSubsequence(a, b) && IsSubsequence(b, c)
    ensures IsSubsequence(a, c)
    decreases |c|
  {
    if a == [] || IsSubsequence(b, c[..|c| - 1]) {
      if a != [] {
        SubsequenceTrans(a, b, c[..|c| - 1]);
      }
    } else {
      // b's last character is c's last; a ends either there or earlier in b
      if a[|a| - 1] == b[|b| - 1] && IsSubsequence(a[..|a| - 1], b[..|b| - 1]) {
        SubsequenceTrans(a[..|a| - 1], b[..|b| - 1], c[..|c| - 1]);
      } else {
        SubsequenceTrans(a, b[..|b| - 1], c[..|c| - 1]);
      }
    }
  }

  lemma {:induction false} SliceIsSubsequence(s: string, i: nat, j: nat)
    requires i <= j <= |s|
    ensures IsSubsequence(s[i..j], s)
  {
    SuffixIsSubsequence(s[..i], s[i..j]);
    assert s[..i] + s[i..j] == s[..j];
    SubsequenceOfExtension(s[..j], s[j..]);
    assert s[..j] + s[j..] == s;
    SubsequenceTrans(s[i..j], s[..j], s);
  }

  /** Filtering only deletes characters. */
  lemma {:induction false} FilterIsSubsequence(s: string)
    ensures IsSubsequence(Filter(s), s)
    decreases |s|
  {
    if s != [] {
      var p := s[..|s| - 1];
      FilterIsSubsequence(p);
      var f := Filter(s);
      if Kept(s[|s| - 1]) {
        assert f[..|f| - 1] == Filter(p);
      } else {
        assert f == Filter(p);
      }
    }
  }

  /** Text made only of kept characters passes the filter unchanged. */
  lemma {:induction false} FilterOfKept(s: string)
    requires forall i :: 0 <= i < |s| ==> Kept(s[i])
    ensures Filter(s) == s
    decreases |s|
  {
    if s != [] {
      FilterOfKept(s[..|s| - 1]);
      assert s[..|s| - 1] + [s[|s| - 1]] == s;
    }
  }

  /** `lstrip()` cuts exactly the opening whitespace. */
  lemma TrimStartShape(s: string)
    ensures var a := LeadingSpace(s);
      TrimStart(s) == s[a..] && (TrimStart(s) != [] ==> !IsSpace(TrimStart(s)[0]))
  {
  }

  /** `rstrip()` cuts exactly the closing whitespace. */
  lemma TrimEndShape(t: string)
    ensures var m := TrailingSpace(t);
      TrimEnd(t) == t[..|t| - m] && (TrimEnd(t) != [] ==> !IsSpace(TrimEnd(t)[|TrimEnd(t)| - 1]))
  {
  }

  /** `strip()` returns a slice of its input. */
  lemma StripSlice(s: string)
    ensures var a, r := LeadingSpace(s), Strip(s);
      a + |r| <= |s| && r == s[a..a + |r|]
  {
    var a, t := LeadingSpace(s), TrimStart(s);
    assert t == s[a..];
    var r := Strip(s);
    assert r == t[..|r|];
  }

  /** What `strip()` returns neither starts nor ends with whitespace. */
  lemma StripEnds(s: string)
    ensures var r := Strip(s);
      r != [] ==> !IsSpace(r[0]) && !IsSpace(r[|r| - 1])
  {
    var t := TrimStart(s);
    TrimStartShape(s);
    TrimEndShape(t);
    var r := Strip(s);
    if r != [] {
      assert r[0] == t[0];
    }
  }

  /** Everything `strip()` cuts away is whitespace. */
  lemma StripCutsOnlySpace(s: string)
    ensures var a, r := LeadingSpace(s), Strip(s);
      a + |r| <= |s|
      && (forall k :: 0 <= k < a ==> IsSpace(s[k]))
      && (forall k :: a + |r| <= k < |s| ==> IsSpace(s[k]))
  {
    var a, t := LeadingSpace(s), TrimStart(s);
    TrimStartShape(s);
    var m := TrailingSpace(t);
    var r := Strip(s);
    assert |r| == |t| - m;
    forall k | a + |r| <= k < |s| ensures IsSpace(s[k]) {
      assert s[k] == t[k - a];
    }
  }

  /** `strip()` leaves text without surrounding whitespace unchanged. */
  lemma StripOfStripped(s: string)
    requires s != [] ==> !IsSpace(s[0]) && !IsSpace(s[|s| - 1])
    ensures Strip(s) == s
  {
  }

  /** Every character `clean_text` returns is a newline, tab, carriage return
      or printable ASCII character, and the result has no surrounding
      whitespace; falsy (empty) input gives "". */
  lemma CleanedShape(s: string)
    ensures var r := Cleaned(s);
      (forall i :: 0 <= i < |r| ==> Kept(r[i]))
      && (r != [] ==> !IsSpace(r[0]) && !IsSpace(r[|r| - 1]))
      && (s == "" ==> r == "")
  {
    StripEnds(Filter(s));
  }

  /** `clean_text` only deletes characters of its input. */
  lemma CleanedIsSubsequence(s: string)
    ensures IsSubsequence(Cleaned(s), s)
  {
    var f := Filter(s);
    var a, r := LeadingSpace(f), Cleaned(s);
    StripSlice(f);
    SliceIsSubsequence(f, a, a + |r|);
    FilterIsSubsequence(s);
    SubsequenceTrans(r, f, s);
  }

  /** Cleaning already-cleaned text returns it unchanged. */
  lemma CleanedIdempotent(s: string)
    ensures Cleaned(Cleaned(s)) == Cleaned(s)
  {
    var r := Cleaned(s);
    CleanedShape(s);
    FilterOfKept(r);
    StripOfStripped(r);
  }
}
