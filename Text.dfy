/** The emptiness test on the draft text: `taskText.trim() !== ''`.
    ECMAScript's String.prototype.trim removes leading and trailing
    WhiteSpace and LineTerminator code points (sections 12.2 and 12.3 of
    ECMA-262); that set is spelled out here. */
module Text {

  /** True of a code point that `trim` removes from either end. */
  predicate IsTrimmable(c: char)
  {
    || '\t' <= c <= '\r'            // tab, line feed, vertical tab, form feed, carriage return
    || c == ' ' || c == '\U{A0}' || c == '\U{1680}'
    || '\U{2000}' <= c <= '\U{200A}'
    || c == '\U{2028}' || c == '\U{2029}'  // line and paragraph separators
    || c == '\U{202F}' || c == '\U{205F}' || c == '\U{3000}' || c == '\U{FEFF}'
  }

  /** The index of the first character at or after `i` that `trim` keeps,
      `|s|` when there is none. */
  function FirstKept(s: string, i: nat): (k: nat)
    requires i <= |s|
    ensures i <= k <= |s|
    ensures forall j :: i <= j < k ==> IsTrimmable(s[j])
    ensures k < |s| ==> !IsTrimmable(s[k])
    decreases |s| - i
  {
    if i < |s| && IsTrimmable(s[i]) then FirstKept(s, i + 1) else i
  }

  /** The index just past the last character before `hi` that `trim` keeps,
      no lower than `lo`. */
  function EndKept(s: string, lo: nat, hi: nat): (k: nat)
    requires lo <= hi <= |s|
    ensures lo <= k <= hi
    ensures forall j :: k <= j < hi ==> IsTrimmable(s[j])
    ensures lo < k ==> !IsTrimmable(s[k - 1])
  {
    if lo < hi && IsTrimmable(s[hi - 1]) then EndKept(s, lo, hi - 1) else hi
  }

  /** `String.prototype.trim`: the contiguous slice of `s` left after both
      ends lose their trimmable characters. */
  function Trim(s: string): (r: string)
    ensures var i := FirstKept(s, 0);
            i + |r| <= |s| && r == s[i..i + |r|]
            && (forall k :: 0 <= k < i ==> IsTrimmable(s[k]))
            && (forall k :: i + |r| <= k < |s| ==> IsTrimmable(s[k]))
    ensures r != [] ==> !IsTrimmable(r[0]) && !IsTrimmable(r[|r| - 1])
  {
    var lo := FirstKept(s, 0);
    var hi := EndKept(s, lo, |s|);
    s[lo..hi]
  }

  /** The guard `taskText.trim() !== ''` of the add and update handlers. */
  predicate HasText(s: string)
  {
    Trim(s) != ""
  }

  /** The guard holds exactly when the draft has a character that `trim`
      keeps: an empty or all-whitespace draft fails it. */
  lemma HasTextIff(s: string)
    ensures HasText(s) <==> exists i :: 0 <= i < |s| && !IsTrimmable(s[i])
  {
  }
}
