/**
 * Screen-class filtering of the responsive box.
 *
 * A row config, column config or item location may carry a `screen` string;
 * it is kept for the current screen class when the string is missing or
 * empty, or when the case-insensitive regular expression
 * `(^|\s)<class>($|\s)` finds the class in it.  The class is assumed to hold
 * no regular-expression metacharacters, so the expression is the plain
 * "class occurs as a whitespace-delimited token" test modelled here.
 */
module Screen {
  import opened Wrappers

  /** The characters JavaScript's `\s` class matches (WhiteSpace and LineTerminator). */
  predicate IsWhiteSpace(ch: char) {
    var n := ch as int;
    n == 0x09 || n == 0x0A || n == 0x0B || n == 0x0C || n == 0x0D || n == 0x20
    || n == 0xA0 || n == 0x1680 || (0x2000 <= n <= 0x200A)
    || n == 0x2028 || n == 0x2029 || n == 0x202F || n == 0x205F
    || n == 0x3000 || n == 0xFEFF
  }

  /** Canonical form of a character under the `i` flag (ASCII letters only). */
  function FoldCase(ch: char): char {
    if 'A' <= ch <= 'Z' then (ch as int + 32) as char else ch
  }

  predicate EqualsIgnoringCase(a: string, b: string) {
    |a| == |b| && forall k :: 0 <= k < |a| ==> FoldCase(a[k]) == FoldCase(b[k])
  }

  /** `(^|\s)<cls>($|\s)` matches with `cls` starting at position `i` of `s`. */
  predicate TokenAt(s: string, cls: string, i: int) {
    && 0 <= i
    && i + |cls| <= |s|
    && (i == 0 || IsWhiteSpace(s[i - 1]))
    && EqualsIgnoringCase(s[i..i + |cls|], cls)
    && (i + |cls| == |s| || IsWhiteSpace(s[i + |cls|]))
  }

  /** The regular expression's search: tries every start position from `i` on. */
  function MatchFrom(s: string, cls: string, i: nat): (r: bool)
    decreases |s| - i
    ensures r <==> exists j :: i <= j <= |s| && TokenAt(s, cls, j)
  {
    if i > |s| then false
    else if TokenAt(s, cls, i) then true
    else MatchFrom(s, cls, i + 1)
  }

  /** `_screenRegExp().test(s)` for the current class `cls`. */
  function ScreenRegExpTest(s: string, cls: string): (r: bool)
    ensures r <==> exists j :: 0 <= j <= |s| && TokenAt(s, cls, j)
  {
    MatchFrom(s, cls, 0)
  }

  /** The `grep` predicate of `_filterByScreen`: `!item.screen || regExp.test(item.screen)`. */
  predicate Keeps(screen: Option<string>, cls: string) {
    screen == None || screen == Some("") || ScreenRegExpTest(screen.value, cls)
  }

  /** `_filterByScreen`: the entries kept for class `cls`, in their order. */
  function FilterByScreen<T(==)>(entries: seq<T>, screenOf: T -> Option<string>, cls: string): (r: seq<T>)
    ensures |r| <= |entries|
    ensures forall i :: 0 <= i < |r| ==> r[i] in entries && Keeps(screenOf(r[i]), cls)
    ensures forall i :: 0 <= i < |entries| && Keeps(screenOf(entries[i]), cls) ==> entries[i] in r
  {
    if entries == [] then []
    else
      var rest := FilterByScreen(entries[1..], screenOf, cls);
      assert forall i :: 1 <= i < |entries| ==> entries[i] == entries[1..][i - 1];
      if Keeps(screenOf(entries[0]), cls) then [entries[0]] + rest else rest
  }

  /** Filtering distributes over concatenation, so it keeps the entries' relative order. */
  lemma {:induction false} FilterByScreenAppend<T>(a: seq<T>, b: seq<T>, screenOf: T -> Option<string>, cls: string)
    ensures FilterByScreen(a + b, screenOf, cls) == FilterByScreen(a, screenOf, cls) + FilterByScreen(b, screenOf, cls)
  {
    if a == [] {
      assert a + b == b;
    } else {
      assert (a + b)[1..] == a[1..] + b;
      FilterByScreenAppend(a[1..], b, screenOf, cls);
    }
  }

  /** A screen string that names the class as a token keeps the entry, whatever the letter case. */
  lemma TokenKeeps(screen: string, cls: string, i: int)
    requires TokenAt(screen, cls, i)
    ensures Keeps(Some(screen), cls)
  {
  }

  /** A screen string with no token equal to the class drops the entry unless it is empty. */
  lemma NoTokenDrops(screen: string, cls: string)
    requires screen != ""
    requires forall i :: 0 <= i <= |screen| ==> !TokenAt(screen, cls, i)
    ensures !Keeps(Some(screen), cls)
  {
  }
}
