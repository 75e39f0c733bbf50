/** The JavaScript string operations the watermark text is built from:
    `String.prototype.trim`, `split` on a one-character separator,
    `Array.prototype.join`, and `filter(Boolean)` over optional strings. */
module JsStrings {
  import opened Wrappers

  /** ECMAScript WhiteSpace and LineTerminator code points: what `trim` removes. */
  predicate IsJsSpace(c: char) {
    c == '\t' || c == '\n' || c == '\U{B}' || c == '\U{C}' || c == '\r' || c == ' '
    || c == '\U{A0}' || c == '\U{1680}' || ('\U{2000}' <= c <= '\U{200A}')
    || c == '\U{2028}' || c == '\U{2029}' || c == '\U{202F}' || c == '\U{205F}'
    || c == '\U{3000}' || c == '\U{FEFF}'
  }

  predicate AllSpace(s: string) {
    forall k :: 0 <= k < |s| ==> IsJsSpace(s[k])
  }

  /** A string that `trim` leaves alone: empty, or no white space at either end. */
  predicate IsTrimmed(t: string) {
    t == "" || (!IsJsSpace(t[0]) && !IsJsSpace(t[|t| - 1]))
  }

  /** How many white-space characters `s` starts with. */
  function LeadingSpace(s: string): (n: nat)
    ensures n <= |s| && AllSpace(s[..n])
    ensures n < |s| ==> !IsJsSpace(s[n])
  {
    if |s| > 0 && IsJsSpace(s[0]) then
      var n := 1 + LeadingSpace(s[1..]);
      assert s[..n] == [s[0]] + s[1..][..n - 1];
      n
    else 0
  }

  /** How many white-space characters `s` ends with. */
  function TrailingSpace(s: string): (n: nat)
    ensures n <= |s| && AllSpace(s[|s| - n..])
    ensures n < |s| ==> !IsJsSpace(s[|s| - 1 - n])
  {
    if |s| > 0 && IsJsSpace(s[|s| - 1]) then
      var n := 1 + TrailingSpace(s[..|s| - 1]);
      assert s[|s| - n..] == s[..|s| - 1][|s| - n..] + [s[|s| - 1]];
      n
    else 0
  }

  /** `s.trim()`: drops the white space at both ends of `s`. */
  function Trim(s: string): (r: string)
    ensures IsTrimmed(r)
  {
    var t := s[LeadingSpace(s)..];
    t[..|t| - TrailingSpace(t)]
  }

  /** What `trim` keeps is an infix of `s`, and what it drops at either end is white space. */
  lemma {:induction false} TrimInfix(s: string)
    ensures var i, r := LeadingSpace(s), Trim(s);
            && i + |r| <= |s| && r == s[i..i + |r|]
            && AllSpace(s[..i]) && AllSpace(s[i + |r|..])
  {
    var t := s[LeadingSpace(s)..];
    assert Trim(s) == t[..|t| - TrailingSpace(t)];
    InfixParts(s, LeadingSpace(s), t, TrailingSpace(t), Trim(s));
  }

  /** Dropping `i` white-space characters in front and then `n` at the back
      leaves an infix whose surroundings are white space. */
  lemma {:induction false} InfixParts(s: string, i: nat, t: string, n: nat, r: string)
    requires i <= |s| && AllSpace(s[..i]) && t == s[i..]
    requires n <= |t| && AllSpace(t[|t| - n..]) && r == t[..|t| - n]
    ensures i + |r| <= |s| && r == s[i..i + |r|] && AllSpace(s[..i]) && AllSpace(s[i + |r|..])
  {
    assert t[|t| - n..] == s[i + |r|..];
  }

  lemma {:induction false} LeadingSpaceOf(p: string, x: string)
    requires AllSpace(p) && (x == "" || !IsJsSpace(x[0]))
    ensures LeadingSpace(p + x) == |p|
  {
    if p == "" {
      assert p + x == x;
    } else {
      assert (p + x)[0] == p[0];
      assert (p + x)[1..] == p[1..] + x;
      LeadingSpaceOf(p[1..], x);
    }
  }

  lemma {:induction false} TrailingSpaceOf(x: string, q: string)
    requires AllSpace(q) && (x == "" || !IsJsSpace(x[|x| - 1]))
    ensures TrailingSpace(x + q) == |q|
  {
    if q == "" {
      assert x + q == x;
    } else {
      var s := x + q;
      assert s[|s| - 1] == q[|q| - 1];
      assert s[..|s| - 1] == x + q[..|q| - 1];
      TrailingSpaceOf(x, q[..|q| - 1]);
    }
  }

  /** Whatever white space surrounds a trimmed string, `trim` recovers exactly that string. */
  lemma {:induction false} TrimRecovers(p: string, r: string, q: string)
    requires AllSpace(p) && AllSpace(q) && IsTrimmed(r)
    ensures Trim(p + r + q) == r
  {
    var s := p + r + q;
    if r == "" {
      assert AllSpace(s) by {
        forall k | 0 <= k < |s| ensures IsJsSpace(s[k]) {
          if k < |p| { assert s[k] == p[k]; } else { assert s[k] == q[k - |p|]; }
        }
      }
      LeadingSpaceOf(s, "");
      assert s + "" == s;
    } else {
      assert s == p + (r + q);
      assert (r + q)[0] == r[0];
      LeadingSpaceOf(p, r + q);
      assert s[|p|..] == r + q;
      TrailingSpaceOf(r, q);
      assert (r + q)[..|r|] == r;
    }
  }

  /** `trim` is the identity on a string with no white space at its ends. */
  lemma {:induction false} TrimOfTrimmed(t: string)
    requires IsTrimmed(t)
    ensures Trim(t) == t
  {
    TrimRecovers("", t, "");
    assert "" + t + "" == t;
  }

  /** A string made only of white space trims to "". */
  lemma {:induction false} TrimAllSpace(s: string)
    requires AllSpace(s)
    ensures Trim(s) == ""
  {
    TrimRecovers(s, "", "");
    assert s + "" + "" == s;
  }

  /** Two non-blank trimmed pieces glued by white space: `trim` keeps all of it. */
  lemma {:induction false} TrimKeepsInnerSpace(a: string, gap: string, b: string)
    requires a != "" && b != "" && IsTrimmed(a) && IsTrimmed(b) && AllSpace(gap)
    ensures Trim(a + gap + b) == a + gap + b
  {
    var s := a + gap + b;
    assert s[0] == a[0] && s[|s| - 1] == b[|b| - 1];
    TrimOfTrimmed(s);
  }

  /** White space in front of a trimmed tail: `trim` yields the tail. */
  lemma {:induction false} TrimDropsBlankHead(a: string, b: string)
    requires AllSpace(a) && IsTrimmed(b)
    ensures Trim(a + b) == b
  {
    TrimRecovers(a, b, "");
    assert a + b + "" == a + b;
  }

  /** A trimmed head followed by white space: `trim` yields the head. */
  lemma {:induction false} TrimDropsBlankTail(a: string, b: string)
    requires IsTrimmed(a) && AllSpace(b)
    ensures Trim(a + b) == a
  {
    TrimRecovers("", a, b);
    assert "" + a + b == a + b;
  }

  // ---------------------------------------------------------------- split

  function Count(s: string, c: char): (n: nat)
    ensures n <= |s|
  {
    if s == "" then 0 else (if s[0] == c then 1 else 0) + Count(s[1..], c)
  }

  /** The characters of `s` before its first `c` (all of `s` when it has none). */
  function TakeUntil(s: string, c: char): (r: string)
    ensures |r| <= |s| && r == s[..|r|] && c !in r
    ensures |r| < |s| ==> s[|r|] == c
  {
    if s == "" || s[0] == c then "" else [s[0]] + TakeUntil(s[1..], c)
  }

  /** `s.split(c)` for a one-character separator: the pieces between the
      occurrences of `c`, empty pieces included. */
  function Split(s: string, c: char): (r: seq<string>)
    ensures |r| == Count(s, c) + 1
    ensures r[0] == TakeUntil(s, c)
    ensures forall k :: 0 <= k < |r| ==> c !in r[k]
  {
    if s == "" then [""]
    else if s[0] == c then [""] + Split(s[1..], c)
    else
      var rest := Split(s[1..], c);
      [[s[0]] + rest[0]] + rest[1..]
  }

  /** `parts.join(sep)`: nothing for no parts, otherwise the first part, then
      the separator and the join of the rest. */
  function Join(parts: seq<string>, sep: string): string {
    if |parts| == 0 then ""
    else if |parts| == 1 then parts[0]
    else parts[0] + sep + Join(parts[1..], sep)
  }

  lemma {:induction false} SplitWithout(s: string, c: char)
    requires c !in s
    ensures Split(s, c) == [s]
  {
    if s != "" {
      assert s[0] in s;
      assert c !in s[1..];
      SplitWithout(s[1..], c);
      assert [s[0]] + s[1..] == s;
    }
  }

  lemma {:induction false} SplitAround(a: string, c: char, b: string)
    requires c !in a
    ensures Split(a + [c] + b, c) == [a] + Split(b, c)
  {
    if a == "" {
      assert a + [c] + b == [c] + b;
      assert ([c] + b)[1..] == b;
    } else {
      var s := a + [c] + b;
      assert s[0] == a[0];
      assert s[1..] == a[1..] + [c] + b;
      SplitAround(a[1..], c, b);
      assert [a[0]] + a[1..] == a;
    }
  }

  /** Splitting a join of separator-free pieces gives the pieces back. */
  lemma {:induction false} SplitJoin(parts: seq<string>, c: char)
    requires |parts| >= 1
    requires forall k :: 0 <= k < |parts| ==> c !in parts[k]
    ensures Split(Join(parts, [c]), c) == parts
  {
    if |parts| == 1 {
      SplitWithout(parts[0], c);
    } else {
      SplitJoin(parts[1..], c);
      SplitAround(parts[0], c, Join(parts[1..], [c]));
      assert [parts[0]] + parts[1..] == parts;
    }
  }

  /** Joining the pieces of a split gives the string back. */
  lemma {:induction false} JoinSplit(s: string, c: char)
    ensures Join(Split(s, c), [c]) == s
  {
    if s == "" {
    } else if s[0] == c {
      JoinSplit(s[1..], c);
      var rest := Split(s[1..], c);
      assert Split(s, c) == [""] + rest;
      assert ([""] + rest)[1..] == rest;
      assert Join([""] + rest, [c]) == "" + [c] + Join(rest, [c]);
      assert s == [c] + s[1..];
    } else {
      JoinSplit(s[1..], c);
      var rest := Split(s[1..], c);
      assert Split(s, c) == [[s[0]] + rest[0]] + rest[1..];
      JoinConsHead(s[0], rest, [c]);
      assert s == [s[0]] + s[1..];
    }
  }

  lemma {:induction false} JoinConsHead(x: char, parts: seq<string>, sep: string)
    requires |parts| >= 1
    ensures Join([[x] + parts[0]] + parts[1..], sep) == [x] + Join(parts, sep)
  {
    var p := [[x] + parts[0]] + parts[1..];
    assert p[1..] == parts[1..];
  }

  // ------------------------------------------------- filter(Boolean) + join

  /** `filter(Boolean)` over entries that are a string or falsy: keeps the
      non-empty strings, in order. */
  function Present(parts: seq<Option<string>>): (r: seq<string>)
    ensures |r| <= |parts|
    ensures forall k :: 0 <= k < |r| ==> r[k] != ""
  {
    if parts == [] then []
    else if parts[0].Some? && parts[0].value != "" then [parts[0].value] + Present(parts[1..])
    else Present(parts[1..])
  }

  lemma {:induction false} PresentAppend(a: seq<Option<string>>, b: seq<Option<string>>)
    ensures Present(a + b) == Present(a) + Present(b)
  {
    if a == [] {
      assert a + b == b;
    } else {
      assert (a + b)[0] == a[0];
      assert (a + b)[1..] == a[1..] + b;
      PresentAppend(a[1..], b);
    }
  }

  lemma {:induction false} JoinAppend(a: seq<string>, b: seq<string>, sep: string)
    requires a != [] && b != []
    ensures Join(a + b, sep) == Join(a, sep) + sep + Join(b, sep)
  {
    if |a| == 1 {
      assert (a + b)[1..] == b;
    } else {
      assert (a + b)[1..] == a[1..] + b;
      JoinAppend(a[1..], b, sep);
    }
  }

  /** `filter(Boolean)` keeps nothing exactly when every entry is falsy. */
  lemma {:induction false} PresentEmptyIff(parts: seq<Option<string>>)
    ensures Present(parts) == [] <==> forall k :: 0 <= k < |parts| ==> parts[k].None? || parts[k].value == ""
  {
    if parts != [] {
      PresentEmptyIff(parts[1..]);
      assert forall k :: 1 <= k < |parts| ==> parts[k] == parts[1..][k - 1];
    }
  }

  lemma {:induction false} JoinOfNonEmptyIsNonEmpty(items: seq<string>, sep: string)
    requires items != [] && items[0] != ""
    ensures Join(items, sep) != ""
  {
  }

  /** The joined `filter(Boolean)` text is empty exactly when every entry is falsy. */
  lemma {:induction false} JoinPresentEmptyIff(parts: seq<Option<string>>, sep: string)
    ensures Join(Present(parts), sep) == "" <==> forall k :: 0 <= k < |parts| ==> parts[k].None? || parts[k].value == ""
  {
    PresentEmptyIff(parts);
    if Present(parts) != [] {
      JoinOfNonEmptyIsNonEmpty(Present(parts), sep);
    }
  }

  /** Four non-empty entries all survive `filter(Boolean)`, in order. */
  lemma {:induction false} PresentOfFour(a: string, b: string, c: string, d: string)
    requires a != "" && b != "" && c != "" && d != ""
    ensures Present([Some(a), Some(b), Some(c), Some(d)]) == [a, b, c, d]
  {
    var p1, p2, p3 := [Some(b), Some(c), Some(d)], [Some(c), Some(d)], [Some(d)];
    assert p3[1..] == [];
    assert Present(p3) == [d];
    assert p2[1..] == p3;
    assert Present(p2) == [c] + [d];
    assert p1[1..] == p2;
    assert Present(p1) == [b] + [c, d];
    assert [Some(a), Some(b), Some(c), Some(d)][1..] == p1;
    assert Present([Some(a), Some(b), Some(c), Some(d)]) == [a] + [b, c, d];
  }

  /** Four items joined: one separator between each neighbouring pair. */
  lemma {:induction false} JoinOfFour(a: string, b: string, c: string, d: string, sep: string)
    ensures Join([a, b, c, d], sep) == a + sep + b + sep + c + sep + d
  {
    var items := [a, b, c, d];
    assert items[1..] == [b, c, d];
    assert items[1..][1..] == [c, d];
    assert [c, d][1..] == [d];
    assert Join([c, d], sep) == c + sep + d;
    assert Join([b, c, d], sep) == b + sep + (c + sep + d);
  }

  /** A falsy entry contributes nothing to the joined text, not even a separator. */
  lemma {:induction false} DropAbsent(a: seq<Option<string>>, x: Option<string>, b: seq<Option<string>>, sep: string)
    requires x.None? || x.value == ""
    ensures Join(Present(a + [x] + b), sep) == Join(Present(a + b), sep)
  {
    PresentAppend(a + [x], b);
    PresentAppend(a, [x]);
    PresentAppend(a, b);
    assert Present([x]) == [];
    assert Present(a) + [] == Present(a);
  }

  /** A present entry between present neighbours is joined with exactly one separator on each side. */
  lemma {:induction false} JoinAroundPresent(a: seq<Option<string>>, x: string, b: seq<Option<string>>, sep: string)
    requires x != "" && Present(a) != [] && Present(b) != []
    ensures Join(Present(a + [Some(x)] + b), sep)
         == Join(Present(a), sep) + sep + x + sep + Join(Present(b), sep)
  {
    PresentAppend(a + [Some(x)], b);
    PresentAppend(a, [Some(x)]);
    assert Present([Some(x)]) == [x];
    JoinAppend(Present(a) + [x], Present(b), sep);
    JoinAppend(Present(a), [x], sep);
  }
}
