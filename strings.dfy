/** The parts of Go's `strings` and `path/filepath` packages that the selector
    relies on, over slash-separated paths. */
module Strings {

  predicate HasPrefix(s: string, prefix: string) {
    |prefix| <= |s| && s[..|prefix|] == prefix
  }

  predicate HasSuffix(s: string, suffix: string) {
    |suffix| <= |s| && s[|s| - |suffix|..] == suffix
  }

  /** `strings.TrimPrefix`: removes one occurrence of `prefix` at the front, if there is one. */
  function TrimPrefix(s: string, prefix: string): (r: string)
    ensures HasPrefix(s, prefix) ==> prefix + r == s
    ensures !HasPrefix(s, prefix) ==> r == s
  {
    if HasPrefix(s, prefix) then s[|prefix|..] else s
  }

  /** `strings.TrimSuffix`: removes one occurrence of `suffix` at the end, if there is one. */
  function TrimSuffix(s: string, suffix: string): (r: string)
    ensures HasSuffix(s, suffix) ==> r + suffix == s
    ensures !HasSuffix(s, suffix) ==> r == s
  {
    if HasSuffix(s, suffix) then s[..|s| - |suffix|] else s
  }

  /** `filepath.Ext`: the suffix of `path` that starts at the last '.' of its
      final element, or "" when that element has no '.'. */
  function Ext(path: string): (r: string)
    ensures r == [] || (r[0] == '.' && HasSuffix(path, r))
    ensures forall i :: 0 < i < |r| ==> r[i] != '.' && r[i] != '/'
    ensures r == [] ==> forall i :: 0 <= i < |path| && path[i] == '.' ==> exists j :: i < j < |path| && path[j] == '/'
  {
    if path == [] then ""
    else
      var c := path[|path| - 1];
      if c == '/' then ""
      else if c == '.' then "."
      else
        var e := Ext(path[..|path| - 1]);
        if e == "" then "" else e + [c]
  }

  /** The selector's test `filepath.Ext(name) != ".md"` is a plain suffix test. */
  lemma ExtIsMd(path: string)
    ensures Ext(path) == ".md" <==> HasSuffix(path, ".md")
  {
    if HasSuffix(path, ".md") {
      var n := |path|;
      var stem := path[..n - 3];
      assert path == stem + ".md";
      assert path[..n - 1] == stem + ".m";
      assert (stem + ".m")[..n - 2] == stem + ".";
      assert Ext(stem + ".") == ".";
      assert Ext(stem + ".m") == ".m";
    }
  }
}
