/**
 * The string helpers the exercises rely on: JavaScript's `String.prototype.trim`,
 * `toLowerCase` (restricted to ASCII letters), the answer normalisation built
 * from them, and `split` on a non-empty separator together with its inverse.
 */
module Text {
  import opened Wrappers

  // ---------- Whitespace and trimming ----------

  /** The characters `trim` removes: ECMAScript's WhiteSpace and LineTerminator code points. */
  predicate IsSpace(c: char) {
    || c == '\t' || c == '\n' || c == '\U{B}' || c == '\U{C}' || c == '\r' || c == ' '
    || c == '\U{A0}' || c == '\U{1680}' || ('\U{2000}' <= c <= '\U{200A}')
    || c == '\U{2028}' || c == '\U{2029}' || c == '\U{202F}' || c == '\U{205F}'
    || c == '\U{3000}' || c == '\U{FEFF}'
  }

  /** Drops the leading whitespace: the result does not start with a space. */
  function TrimStart(s: string): (r: string)
    ensures |r| <= |s|
    ensures r != [] ==> !IsSpace(r[0])
  {
    if |s| > 0 && IsSpace(s[0]) then TrimStart(s[1..]) else s
  }

  /** `TrimStart` keeps a suffix of `s`, and what it drops is whitespace. */
  lemma {:induction false} TrimStartDropsSpaces(s: string)
    ensures TrimStart(s) == s[|s| - |TrimStart(s)|..]
    ensures forall i :: 0 <= i < |s| - |TrimStart(s)| ==> IsSpace(s[i])
  {
    if |s| > 0 && IsSpace(s[0]) {
      TrimStartDropsSpaces(s[1..]);
      assert s[1..][|s| - 1 - |TrimStart(s)|..] == s[|s| - |TrimStart(s)|..];
      assert forall i :: 1 <= i < |s| ==> s[i] == s[1..][i - 1];
    }
  }

  /** Drops the trailing whitespace: the result does not end with a space. */
  function TrimEnd(s: string): (r: string)
    ensures |r| <= |s|
    ensures r != [] ==> !IsSpace(r[|r| - 1])
  {
    if |s| > 0 && IsSpace(s[|s| - 1]) then TrimEnd(s[..|s| - 1]) else s
  }

  /** `TrimEnd` keeps a prefix of `s`, and what it drops is whitespace. */
  lemma {:induction false} TrimEndDropsSpaces(s: string)
    ensures TrimEnd(s) == s[..|TrimEnd(s)|]
    ensures forall i :: |TrimEnd(s)| <= i < |s| ==> IsSpace(s[i])
  {
    if |s| > 0 && IsSpace(s[|s| - 1]) {
      TrimEndDropsSpaces(s[..|s| - 1]);
      assert s[..|s| - 1][..|TrimEnd(s)|] == s[..|TrimEnd(s)|];
    }
  }

  /** `s.trim()`: `s` without the whitespace at either end. */
  function Trim(s: string): (r: string)
    ensures r != [] ==> !IsSpace(r[0]) && !IsSpace(r[|r| - 1])
  {
    TrimEndDropsSpaces(TrimStart(s));
    TrimEnd(TrimStart(s))
  }

  /**
   * Trimming removes only whitespace: the result is the slice of `s` that
   * starts after its leading spaces, and only spaces lie outside it.
   */
  lemma TrimSlice(s: string)
    ensures var k := |s| - |TrimStart(s)|;
      0 <= k && k + |Trim(s)| <= |s| && Trim(s) == s[k..k + |Trim(s)|]
    ensures var k := |s| - |TrimStart(s)|;
      forall i :: 0 <= i < k ==> IsSpace(s[i])
    ensures var k := |s| - |TrimStart(s)|;
      forall i :: k + |Trim(s)| <= i < |s| ==> IsSpace(s[i])
  {
    var k := |s| - |TrimStart(s)|;
    var t := TrimStart(s);
    var r := TrimEnd(t);
    TrimStartDropsSpaces(s);
    TrimEndDropsSpaces(t);
    assert Trim(s) == r;
    assert t == s[k..];
    assert r == t[..|r|];
    assert forall i :: k + |r| <= i < |s| ==> s[i] == t[i - k];
  }

  /** Trimming a string without whitespace at its ends gives it back unchanged. */
  lemma TrimUnchanged(s: string)
    requires s != [] ==> !IsSpace(s[0]) && !IsSpace(s[|s| - 1])
    ensures Trim(s) == s
  {
    assert TrimStart(s) == s;
  }

  // ---------- Case folding ----------

  predicate IsUpper(c: char) {
    'A' <= c <= 'Z'
  }

  /** `toLowerCase` on one character, for ASCII letters only. */
  function LowerChar(c: char): (d: char)
    ensures !IsUpper(d)
    ensures IsUpper(c) ==> d as int == c as int + 32
    ensures !IsUpper(c) ==> d == c
  {
    if IsUpper(c) then (c as int + 32) as char else c
  }

  /** `s.toLowerCase()` with ASCII case folding: each character is lowered in place. */
  function ToLower(s: string): (r: string)
    ensures |r| == |s|
    ensures forall i :: 0 <= i < |s| ==> r[i] == LowerChar(s[i])
  {
    if s == [] then [] else [LowerChar(s[0])] + ToLower(s[1..])
  }

  // ---------- Normalisation ----------

  /** A string `Normalize` leaves as it is: no whitespace at either end and no upper-case letter. */
  predicate IsNormalized(s: string) {
    && (s != [] ==> !IsSpace(s[0]) && !IsSpace(s[|s| - 1]))
    && forall i :: 0 <= i < |s| ==> !IsUpper(s[i])
  }

  /** `normalize` of the fill-in-the-blank exercise: trim, then lower-case. */
  function Normalize(s: string): (r: string)
    ensures IsNormalized(r)
  {
    ToLower(Trim(s))
  }

  /** `Normalize` fixes exactly the normalised strings. */
  lemma NormalizeFixedPoints(s: string)
    ensures Normalize(s) == s <==> IsNormalized(s)
  {
    if IsNormalized(s) {
      TrimUnchanged(s);
      assert ToLower(s) == s;
    }
  }

  /** Normalising twice is normalising once. */
  lemma NormalizeIdempotent(s: string)
    ensures Normalize(Normalize(s)) == Normalize(s)
  {
    NormalizeFixedPoints(Normalize(s));
  }

  // ---------- Worked normalisation examples ----------

  lemma LeadingSpacesDropped()
    ensures TrimStart("  Token ") == "Token "
  {
    assert "  Token "[1..] == " Token ";
    assert " Token "[1..] == "Token ";
  }

  lemma TrailingSpaceDropped()
    ensures TrimEnd("Token ") == "Token"
  {
    assert "Token "[..5] == "Token";
  }

  lemma NormalizeSpaced()
    ensures Normalize("  Token ") == "token"
  {
    LeadingSpacesDropped();
    TrailingSpaceDropped();
    assert Trim("  Token ") == "Token";
    assert ToLower("Token") == "token";
  }

  lemma NormalizePlural()
    ensures Normalize("Tokens") == "tokens"
  {
    assert TrimStart("Tokens") == "Tokens";
    assert TrimEnd("Tokens") == "Tokens";
    assert Trim("Tokens") == "Tokens";
    assert ToLower("Tokens") == "tokens";
  }

  /** Spaces around the word and capitals are dropped; other letters are kept. */
  lemma NormalizeExamples()
    ensures Normalize("  Token ") == "token"
    ensures Normalize("token") == "token"
    ensures Normalize("Tokens") == "tokens"
  {
    NormalizeSpaced();
    NormalizePlural();
    NormalizeFixedPoints("token");
  }

  // ---------- Split and join ----------

  /** `sep` occurs in `s` starting at position `i`. */
  predicate OccursAt(s: string, sep: string, i: int) {
    0 <= i && i + |sep| <= |s| && s[i..i + |sep|] == sep
  }

  predicate Contains(s: string, sep: string) {
    exists i :: 0 <= i < |s| && OccursAt(s, sep, i)
  }

  /** Occurrences in `s[1..]` are the occurrences in `s` after its first position, shifted by one. */
  lemma OccursShift(s: string, sep: string)
    requires |s| > 0
    ensures forall i :: 1 <= i ==> (OccursAt(s, sep, i) <==> OccursAt(s[1..], sep, i - 1))
  {
    forall i | 1 <= i ensures OccursAt(s, sep, i) <==> OccursAt(s[1..], sep, i - 1) {
      if i + |sep| <= |s| {
        var a, b := s[i..i + |sep|], s[1..][i - 1..i - 1 + |sep|];
        assert forall j :: 0 <= j < |sep| ==> a[j] == b[j];
        assert a == b;
      }
    }
  }

  /** `s.indexOf(sep)`: the first position at which `sep` occurs, if any. */
  function Find(s: string, sep: string): (r: Option<nat>)
    requires |sep| > 0
    ensures r.Some? ==> OccursAt(s, sep, r.value)
    ensures forall i :: 0 <= i < (if r.Some? then r.value else |s|) ==> !OccursAt(s, sep, i)
    decreases |s|
  {
    if |s| < |sep| then None
    else if s[..|sep|] == sep then Some(0)
    else
      OccursShift(s, sep);
      match Find(s[1..], sep)
      case None => None
      case Some(k) => Some(k + 1)
  }

  /** `s.split(sep)`: the pieces between successive non-overlapping occurrences of `sep`, scanned from the left. */
  function Split(s: string, sep: string): (parts: seq<string>)
    requires |sep| > 0
    ensures |parts| >= 1
    ensures forall k :: 0 <= k < |parts| ==> !Contains(parts[k], sep)
    decreases |s|
  {
    match Find(s, sep)
    case None =>
      assert forall i :: OccursAt(s, sep, i) ==> i < |s|;
      [s]
    case Some(p) =>
      var head := s[..p];
      assert forall i :: OccursAt(head, sep, i) ==> OccursAt(s, sep, i) && i < p by {
        forall i | OccursAt(head, sep, i) ensures OccursAt(s, sep, i) && i < p {
          assert s[i..i + |sep|] == head[i..i + |sep|];
        }
      }
      [head] + Split(s[p + |sep|..], sep)
  }

  /** `parts.join(sep)`. */
  function Join(parts: seq<string>, sep: string): string
    requires |parts| >= 1
  {
    if |parts| == 1 then parts[0] else parts[0] + sep + Join(parts[1..], sep)
  }

  /** Splitting loses nothing: joining the pieces with the separator rebuilds the string. */
  lemma {:induction false} JoinSplit(s: string, sep: string)
    requires |sep| > 0
    ensures Join(Split(s, sep), sep) == s
    decreases |s|
  {
    match Find(s, sep)
    case None =>
    case Some(p) =>
      var rest := s[p + |sep|..];
      var tail := Split(rest, sep);
      JoinSplit(rest, sep);
      assert Split(s, sep) == [s[..p]] + tail;
      assert ([s[..p]] + tail)[1..] == tail;
      assert Join([s[..p]] + tail, sep) == s[..p] + sep + Join(tail, sep);
      assert s == s[..p] + sep + rest;
  }

  /** A string in which the separator does not occur is a single piece. */
  lemma SplitWithout(s: string, sep: string)
    requires |sep| > 0 && !Contains(s, sep)
    ensures Split(s, sep) == [s]
  {
    assert Find(s, sep).Some? ==> OccursAt(s, sep, Find(s, sep).value);
  }

  /**
   * The leftmost occurrence of the separator ends the first piece: when
   * `sep` occurs at no position inside `a`, `split` cuts `a + sep + b`
   * right after `a` and splits `b` again.
   */
  lemma SplitAt(a: string, sep: string, b: string)
    requires |sep| > 0
    requires forall i :: 0 <= i < |a| ==> !OccursAt(a + sep + b, sep, i)
    ensures Split(a + sep + b, sep) == [a] + Split(b, sep)
  {
    var s := a + sep + b;
    assert OccursAt(s, sep, |a|) by {
      assert s[|a|..|a| + |sep|] == sep;
    }
    var p := Find(s, sep).value;
    assert p == |a|;
    assert s[..p] == a;
    assert s[p + |sep|..] == b;
  }

  /** A string without the separator's first character is a single piece. */
  lemma SplitWithoutFirst(s: string, sep: string)
    requires |sep| > 0 && sep[0] !in s
    ensures Split(s, sep) == [s]
  {
    forall i | 0 <= i < |s| ensures !OccursAt(s, sep, i) {
      if i + |sep| <= |s| {
        assert s[i..i + |sep|][0] == s[i];
      }
    }
    SplitWithout(s, sep);
  }

  /** A separator right after a piece free of the separator's first character ends that piece. */
  lemma SplitAtFirst(a: string, sep: string, b: string)
    requires |sep| > 0 && sep[0] !in a
    ensures Split(a + sep + b, sep) == [a] + Split(b, sep)
  {
    var s := a + sep + b;
    forall i | 0 <= i < |a| ensures !OccursAt(s, sep, i) {
      if i + |sep| <= |s| {
        assert s[i..i + |sep|][0] == s[i] == a[i];
      }
    }
    SplitAt(a, sep, b);
  }
}
