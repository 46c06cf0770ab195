/**
 * The few Python string built-ins the routes rely on, stated over `seq<char>`:
 * `str.isspace`, `str.rstrip()`, `str.lstrip()`, `str.strip()`, `str.lower()`
 * (ASCII letters only) and `os.path.splitext` on a bare file name.
 */
module PyText {

  /** Python's `str.isspace` for one character: the Unicode whitespace set. */
  predicate IsSpace(c: char) {
    ('\U{9}' <= c <= '\U{D}') || ('\U{1C}' <= c <= '\U{20}') ||
    c == '\U{85}' || c == '\U{A0}' || c == '\U{1680}' ||
    ('\U{2000}' <= c <= '\U{200A}') || c == '\U{2028}' || c == '\U{2029}' ||
    c == '\U{202F}' || c == '\U{205F}' || c == '\U{3000}'
  }

  predicate AllSpace(s: string) {
    forall i :: 0 <= i < |s| ==> IsSpace(s[i])
  }

  /** The length of `s` without its trailing whitespace. */
  function RStripLen(s: string): (n: nat)
    ensures n <= |s|
    ensures n == 0 || !IsSpace(s[n - 1])
    ensures forall i :: n <= i < |s| ==> IsSpace(s[i])
  {
    if |s| == 0 || !IsSpace(s[|s| - 1]) then |s| else RStripLen(s[..|s| - 1])
  }

  /** The number of whitespace characters `s` starts with. */
  function LStripLen(s: string): (n: nat)
    ensures n <= |s|
    ensures n == |s| || !IsSpace(s[n])
    ensures forall i :: 0 <= i < n ==> IsSpace(s[i])
  {
    if |s| == 0 || !IsSpace(s[0]) then 0 else 1 + LStripLen(s[1..])
  }

  /** `s.rstrip()`: the longest prefix of `s` that does not end in whitespace. */
  function RStrip(s: string): (r: string)
    ensures |r| <= |s| && r == s[..|r|]
    ensures r == [] || !IsSpace(r[|r| - 1])
    ensures forall i :: |r| <= i < |s| ==> IsSpace(s[i])
  {
    s[..RStripLen(s)]
  }

  /** `s.lstrip()`: the longest suffix of `s` that does not start with whitespace. */
  function LStrip(s: string): (r: string)
    ensures |r| <= |s| && r == s[|s| - |r|..]
    ensures r == [] || !IsSpace(r[0])
    ensures forall i :: 0 <= i < |s| - |r| ==> IsSpace(s[i])
  {
    s[LStripLen(s)..]
  }

  /** `s.strip()`: whitespace removed at both ends; empty exactly for all-whitespace input. */
  function Strip(s: string): (r: string)
    ensures |r| <= |s|
    ensures r == [] <==> AllSpace(s)
    ensures r != [] ==> !IsSpace(r[0]) && !IsSpace(r[|r| - 1])
    ensures exists a :: 0 <= a <= a + |r| <= |s| && r == s[a..a + |r|] &&
                        AllSpace(s[..a]) && AllSpace(s[a + |r|..])
  {
    var t := RStrip(s);
    var r := LStrip(t);
    var a := |t| - |r|;
    assert r == s[a..a + |r|];
    assert AllSpace(s[..a]) by {
      assert s[..a] == t[..a];
    }
    assert AllSpace(s[a + |r|..]);
    if r == [] then
      r
    else
      assert r[0] == t[|t| - |r|] == s[|t| - |r|];
      assert r[|r| - 1] == t[|t| - 1];
      r
  }

  /** `str.lower()` for one character, ASCII letters only. */
  function LowerChar(c: char): char {
    if 'A' <= c <= 'Z' then (c as int - 'A' as int + 'a' as int) as char else c
  }

  function Lower(s: string): (r: string)
    ensures |r| == |s|
    ensures forall i :: 0 <= i < |s| ==> r[i] == LowerChar(s[i])
  {
    if |s| == 0 then [] else [LowerChar(s[0])] + Lower(s[1..])
  }

  predicate AllDots(s: string) {
    forall i :: 0 <= i < |s| ==> s[i] == '.'
  }

  /** The index of the last '.' in `s`, or -1 when there is none. */
  function LastDot(s: string): (r: int)
    ensures -1 <= r < |s|
    ensures r >= 0 ==> s[r] == '.'
    ensures forall i :: r < i < |s| ==> s[i] != '.'
  {
    if |s| == 0 then -1
    else if s[|s| - 1] == '.' then |s| - 1
    else LastDot(s[..|s| - 1])
  }

  /**
   * The extension half of `os.path.splitext(name)` for a name without directory
   * separators: from the last '.' to the end, provided some character before
   * that '.' is not a '.' (so ".bashrc" and "..x" have no extension); else "".
   */
  function SplitExt(name: string): (ext: string)
    ensures |ext| <= |name|
    ensures ext == [] || (ext[0] == '.' && name == name[..|name| - |ext|] + ext &&
                          !AllDots(name[..|name| - |ext|]))
    ensures forall i :: 0 < i < |ext| ==> ext[i] != '.'
    ensures ext == [] <==> LastDot(name) < 0 || AllDots(name[..LastDot(name)])
  {
    var d := LastDot(name);
    if d < 0 || AllDots(name[..d]) then "" else name[d..]
  }
}
