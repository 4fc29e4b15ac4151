/** The handful of Python `str` operations the text codecs use, on
    `seq<char>`: strip, lower, split on one character, join, replace,
    find, and decimal digits. Only ASCII case folding and ASCII whitespace
    and digits are modelled. */
module Text {

  // ---------------------------------------------------------------
  // Characters

  /** The ASCII characters `str.strip()` removes. */
  predicate IsSpace(c: char)
  {
    c == ' ' || c == '\t' || c == '\n' || c == '\r' || c == '\U{000B}' || c == '\U{000C}'
  }

  predicate IsDigit(c: char)
  {
    '0' <= c <= '9'
  }

  /** `c.lower()` on ASCII letters. */
  function LowerChar(c: char): (r: char)
    ensures 'A' <= c <= 'Z' ==> 'a' <= r <= 'z'
    ensures !('A' <= c <= 'Z') ==> r == c
  {
    if 'A' <= c <= 'Z' then (c as int - 'A' as int + 'a' as int) as char else c
  }

  /** `s.lower()`. */
  function Lower(s: string): (r: string)
    ensures |r| == |s|
    ensures forall i :: 0 <= i < |s| ==> r[i] == LowerChar(s[i])
  {
    seq(|s|, i requires 0 <= i < |s| => LowerChar(s[i]))
  }

  // ---------------------------------------------------------------
  // Stripping

  /** `s.lstrip(chars)`. */
  function StripLeft(s: string, chars: set<char>): (r: string)
    ensures |r| <= |s|
    ensures forall i :: 0 <= i < |s| - |r| ==> s[i] in chars
    ensures |r| > 0 ==> r[0] !in chars
  {
    if |s| > 0 && s[0] in chars then StripLeft(s[1..], chars) else s
  }

  /** What `lstrip` leaves is the end of the text: its character i. */
  lemma {:induction false} StripLeftIndex(s: string, chars: set<char>, i: nat)
    requires i < |StripLeft(s, chars)|
    ensures StripLeft(s, chars)[i] == s[|s| - |StripLeft(s, chars)| + i]
    decreases |s|
  {
    if |s| > 0 && s[0] in chars {
      StripLeftIndex(s[1..], chars, i);
    }
  }

  /** `s.rstrip(chars)`. */
  function StripRight(s: string, chars: set<char>): (r: string)
    ensures |r| <= |s| && forall i :: 0 <= i < |r| ==> r[i] == s[i]
    ensures forall i :: |r| <= i < |s| ==> s[i] in chars
    ensures |r| > 0 ==> r[|r| - 1] !in chars
  {
    if |s| > 0 && s[|s| - 1] in chars then StripRight(s[..|s| - 1], chars) else s
  }

  /** `s.strip(chars)`. */
  function StripChars(s: string, chars: set<char>): string
  {
    StripRight(StripLeft(s, chars), chars)
  }

  const Whitespace: set<char> := {' ', '\t', '\n', '\r', '\U{000B}', '\U{000C}'}

  /** `s.strip()`. */
  function Strip(s: string): string
  {
    StripChars(s, Whitespace)
  }

  /** A character outside the set survives stripping. */
  lemma StripKeeps(s: string, chars: set<char>, c: char)
    requires c in s && c !in chars
    ensures c in StripChars(s, chars)
  {
    var i :| 0 <= i < |s| && s[i] == c;
    var l := StripLeft(s, chars);
    var j := i - (|s| - |l|);
    assert j >= 0;
    StripLeftIndex(s, chars, j);
    var r := StripRight(l, chars);
    assert j < |r|;
    assert r[j] == c;
  }

  /** `[t.strip() for t in ss]`. */
  function StripEach(ss: seq<string>): (r: seq<string>)
    ensures |r| == |ss|
    ensures forall i :: 0 <= i < |ss| ==> r[i] == Strip(ss[i])
  {
    seq(|ss|, i requires 0 <= i < |ss| => Strip(ss[i]))
  }

  /** `[t.lower() for t in ss]`. */
  function LowerEach(ss: seq<string>): (r: seq<string>)
    ensures |r| == |ss|
    ensures forall i :: 0 <= i < |ss| ==> r[i] == Lower(ss[i])
  {
    seq(|ss|, i requires 0 <= i < |ss| => Lower(ss[i]))
  }

  /** No character of s is in the set. */
  predicate NoneIn(s: string, chars: set<char>)
  {
    forall i :: 0 <= i < |s| ==> s[i] !in chars
  }

  /** Every character of s is in the set. */
  predicate AllIn(s: string, chars: set<char>)
  {
    forall i :: 0 <= i < |s| ==> s[i] in chars
  }

  /** Stripping a padded text takes off exactly the padding. */
  lemma StripPadded(a: string, t: string, b: string, chars: set<char>)
    requires AllIn(a, chars) && AllIn(b, chars) && NoneIn(t, chars)
    ensures StripChars(a + t + b, chars) == t
  {
    var s := a + t + b;
    if |t| == 0 {
      assert forall k :: 0 <= k < |s| ==> s[k] in chars by {
        assert forall k :: 0 <= k < |s| ==> s[k] == if k < |a| then a[k] else b[k - |a|];
      }
      StripAllIn(s, chars);
    } else {
      StripEnds(a, t, b, chars);
    }
  }

  /** Stripping stops at the first and the last character of a text whose
      ends are outside the set, whatever the text holds in between. */
  lemma StripEnds(a: string, t: string, b: string, chars: set<char>)
    requires AllIn(a, chars) && AllIn(b, chars)
    requires |t| > 0 && t[0] !in chars && t[|t| - 1] !in chars
    ensures StripChars(a + t + b, chars) == t
  {
    var l := StripLeft(a + t + b, chars);
    StripLeftAt(a, t, b, chars);
    var r := StripRight(l, chars);
    StripRightAt(t, b, l, chars);
    assert forall k :: 0 <= k < |r| ==> r[k] == t[k];
  }

  /** A text made only of stripped characters strips to nothing. */
  lemma StripAllIn(s: string, chars: set<char>)
    requires AllIn(s, chars)
    ensures StripChars(s, chars) == ""
  {
    var l := StripLeft(s, chars);
    if |l| > 0 {
      StripLeftIndex(s, chars, 0);
    }
  }

  /** Left-stripping a padded text stops at its first character. */
  lemma StripLeftAt(a: string, t: string, b: string, chars: set<char>)
    requires AllIn(a, chars) && |t| > 0 && t[0] !in chars
    ensures var l := StripLeft(a + t + b, chars);
      |l| == |t| + |b| && forall k :: 0 <= k < |l| ==> l[k] == (t + b)[k]
  {
    var s := a + t + b;
    assert forall k :: 0 <= k < |t + b| ==> s[|a| + k] == (t + b)[k];
    StripLeftStops(s, |a|, chars);
    forall k | 0 <= k < |t + b|
      ensures StripLeft(s, chars)[k] == s[|a| + k]
    {
      StripLeftIndex(s, chars, k);
    }
  }

  /** Left-stripping stops at the first character outside the set. */
  lemma StripLeftStops(s: string, n: nat, chars: set<char>)
    requires n < |s| && s[n] !in chars && forall k :: 0 <= k < n ==> s[k] in chars
    ensures |StripLeft(s, chars)| == |s| - n
  {
    var l := StripLeft(s, chars);
    if |l| > |s| - n {
      StripLeftIndex(s, chars, 0);
    }
  }

  /** Right-stripping t + b stops at the last character of t. */
  lemma StripRightAt(t: string, b: string, l: string, chars: set<char>)
    requires AllIn(b, chars) && |t| > 0 && t[|t| - 1] !in chars
    requires |l| == |t| + |b| && forall k :: 0 <= k < |l| ==> l[k] == (t + b)[k]
    ensures var r := StripRight(l, chars);
      |r| == |t| && forall k :: 0 <= k < |r| ==> r[k] == t[k]
  {
    var r := StripRight(l, chars);
    assert l[|t| - 1] == t[|t| - 1];
    assert forall k :: 0 <= k < |r| ==> r[k] == l[k] == (t + b)[k];
  }

  // ---------------------------------------------------------------
  // Searching

  /** `s.find(c)`, -1 when absent. */
  function Find(s: string, c: char): (r: int)
    ensures -1 <= r < |s|
    ensures r == -1 <==> c !in s
    ensures r >= 0 ==> s[r] == c && c !in s[..r]
  {
    if |s| == 0 then -1
    else if s[0] == c then 0
    else
      var k := Find(s[1..], c);
      assert s[1..][..if k < 0 then 0 else k] == s[1..1 + if k < 0 then 0 else k];
      if k < 0 then -1 else k + 1
  }

  /** `s.rfind(c)`, -1 when absent. */
  function RFind(s: string, c: char): (r: int)
    ensures -1 <= r < |s|
    ensures r == -1 <==> c !in s
    ensures r >= 0 ==> s[r] == c && c !in s[r + 1..]
  {
    if |s| == 0 then -1
    else if s[|s| - 1] == c then |s| - 1
    else
      var k := RFind(s[..|s| - 1], c);
      assert k >= 0 ==> s[k + 1..] == s[..|s| - 1][k + 1..] + [s[|s| - 1]];
      k
  }

  predicate StartsWith(s: string, prefix: string)
  {
    |prefix| <= |s| && s[..|prefix|] == prefix
  }

  predicate EndsWith(s: string, suffix: string)
  {
    |suffix| <= |s| && s[|s| - |suffix|..] == suffix
  }

  // ---------------------------------------------------------------
  // Splitting and joining

  /** `s.split(sep)` for a one-character separator. */
  function Split(s: string, sep: char): (r: seq<string>)
    ensures |r| >= 1
    ensures forall i :: 0 <= i < |r| ==> sep !in r[i]
    decreases |s|
  {
    var i := Find(s, sep);
    if i < 0 then [s] else [s[..i]] + Split(s[i + 1..], sep)
  }

  /** `sep.join(parts)`. */
  function Join(parts: seq<string>, sep: string): string
  {
    if |parts| == 0 then ""
    else if |parts| == 1 then parts[0]
    else parts[0] + sep + Join(parts[1..], sep)
  }

  /** Joining the pieces of a split gives back the string. */
  lemma {:induction false} JoinSplit(s: string, sep: char)
    ensures Join(Split(s, sep), [sep]) == s
    decreases |s|
  {
    var i := Find(s, sep);
    if i >= 0 {
      var head, tail := s[..i], s[i + 1..];
      var t := Split(tail, sep);
      JoinSplit(tail, sep);
      JoinCons(head, t, [sep]);
      SplitAround(s, i);
      calc {
        Join(Split(s, sep), [sep]);
        Join([head] + t, [sep]);
        head + [sep] + tail;
        s;
      }
    }
  }

  /** A string is the part before position i, the character at i, and the rest. */
  lemma SplitAround(s: string, i: nat)
    requires i < |s|
    ensures s == s[..i] + [s[i]] + s[i + 1..]
  {
  }

  /** Splitting a join of separator-free parts gives back the parts. */
  lemma {:induction false} SplitJoin(parts: seq<string>, sep: char)
    requires |parts| >= 1
    requires forall i :: 0 <= i < |parts| ==> sep !in parts[i]
    ensures Split(Join(parts, [sep]), sep) == parts
    decreases |parts|
  {
    if |parts| > 1 {
      var head, rest := parts[0], Join(parts[1..], [sep]);
      var s := head + ([sep] + rest);
      JoinCons(head, parts[1..], [sep]);
      assert Join(parts, [sep]) == s;
      FindAfterFree(head, [sep] + rest, sep);
      assert s[..|head|] == head;
      assert s[|head| + 1..] == rest;
      SplitJoin(parts[1..], sep);
      assert parts == [head] + parts[1..];
    }
  }

  lemma JoinCons(a: string, rest: seq<string>, sep: string)
    requires |rest| >= 1
    ensures Join([a] + rest, sep) == a + sep + Join(rest, sep)
  {
    assert ([a] + rest)[1..] == rest;
  }

  /** Splitting a " + "-style join and stripping the pieces gives back the
      parts, when the parts are free of the separator and of whitespace. */
  lemma {:induction false} SplitPaddedJoin(parts: seq<string>, sep: char, lead: string)
    requires |parts| >= 1 && sep !in Whitespace
    requires forall i :: 0 <= i < |parts| ==> sep !in parts[i] && NoneIn(parts[i], Whitespace)
    requires AllIn(lead, Whitespace)
    ensures StripEach(Split(lead + Join(parts, [' ', sep, ' ']), sep)) == parts
    decreases |parts|, 1
  {
    if |parts| == 1 {
      SplitPaddedLast(parts[0], sep, lead);
    } else {
      SplitPaddedStep(parts, sep, lead);
    }
  }

  lemma SplitPaddedLast(head: string, sep: char, lead: string)
    requires sep !in Whitespace && sep !in head && NoneIn(head, Whitespace) && AllIn(lead, Whitespace)
    ensures StripEach(Split(lead + Join([head], [' ', sep, ' ']), sep)) == [head]
  {
    var s := lead + head;
    assert Join([head], [' ', sep, ' ']) == head;
    assert sep !in lead;
    assert Find(s, sep) == -1;
    assert Split(s, sep) == [s];
    StripPadded(lead, head, "", Whitespace);
    assert s + "" == s;
  }

  lemma {:induction false} SplitPaddedStep(parts: seq<string>, sep: char, lead: string)
    requires |parts| >= 2 && sep !in Whitespace
    requires forall i :: 0 <= i < |parts| ==> sep !in parts[i] && NoneIn(parts[i], Whitespace)
    requires AllIn(lead, Whitespace)
    ensures StripEach(Split(lead + Join(parts, [' ', sep, ' ']), sep)) == parts
    decreases |parts|, 0
  {
    var pad := [' ', sep, ' '];
    var head, tail := parts[0], parts[1..];
    var rest := Join(tail, pad);
    JoinFirst(parts, pad);
    SplitAt(lead, head, sep, rest, lead + Join(parts, pad));
    SplitPaddedJoin(tail, sep, " ");
    StripPadded(lead, head, " ", Whitespace);
    StripEachCons(lead + head + " ", Split(" " + rest, sep));
  }

  lemma JoinFirst(parts: seq<string>, sep: string)
    requires |parts| >= 2
    ensures Join(parts, sep) == parts[0] + sep + Join(parts[1..], sep)
  {
  }

  lemma StripEachCons(s: string, ss: seq<string>)
    ensures StripEach([s] + ss) == [Strip(s)] + StripEach(ss)
  {
    var l, r := StripEach([s] + ss), [Strip(s)] + StripEach(ss);
    forall i | 0 <= i < |l|
      ensures l[i] == r[i]
    {
      if i > 0 {
        assert ([s] + ss)[i] == ss[i - 1];
      }
    }
  }

  /** The first separator of a padded join sits right after the first part. */
  lemma SplitAt(lead: string, head: string, sep: char, rest: string, s: string)
    requires sep !in Whitespace && sep !in head && AllIn(lead, Whitespace)
    requires s == lead + (head + [' ', sep, ' '] + rest)
    ensures Split(s, sep) == [lead + head + " "] + Split(" " + rest, sep)
  {
    var front := lead + head + " ";
    assert s == front + ([sep] + (" " + rest));
    NoSepInPadded(lead, head, sep);
    SplitFirst(front, " " + rest, sep);
  }

  lemma NoSepInPadded(lead: string, head: string, sep: char)
    requires sep !in Whitespace && sep !in head && AllIn(lead, Whitespace)
    ensures sep !in lead + head + " "
  {
    var front := lead + head + " ";
    assert forall i :: 0 <= i < |front| ==>
      front[i] == if i < |lead| then lead[i] else if i < |lead| + |head| then head[i - |lead|] else ' ';
  }

  /** A separator-free front ends the first piece. */
  lemma SplitFirst(front: string, tail: string, sep: char)
    requires sep !in front
    ensures Split(front + ([sep] + tail), sep) == [front] + Split(tail, sep)
  {
    var s := front + ([sep] + tail);
    FindAfterFree(front, [sep] + tail, sep);
    assert s[..|front|] == front;
    assert s[|front| + 1..] == tail;
  }

  /** Find skips a prefix free of c. */
  lemma {:induction false} FindAfterFree(a: string, b: string, c: char)
    requires c !in a && |b| > 0 && b[0] == c
    ensures Find(a + b, c) == |a|
    decreases |a|
  {
    if |a| > 0 {
      assert (a + b)[1..] == a[1..] + b;
      FindAfterFree(a[1..], b, c);
    } else {
      assert a + b == b;
    }
  }

  /** `s.replace(c, "")`: every c removed, everything else kept in order. */
  function RemoveChar(s: string, c: char): (r: string)
    ensures c !in r && |r| <= |s|
    ensures c !in s ==> r == s
  {
    if |s| == 0 then ""
    else (if s[0] == c then "" else [s[0]]) + RemoveChar(s[1..], c)
  }

  /** `s.replace("^+", "^")`: scanning left to right, each "^+" loses its '+'. */
  function ReplaceCaretPlus(s: string): string
  {
    if |s| < 2 then s
    else if s[0] == '^' && s[1] == '+' then "^" + ReplaceCaretPlus(s[2..])
    else [s[0]] + ReplaceCaretPlus(s[1..])
  }

  // ---------------------------------------------------------------
  // Decimal numbers

  /** `s.isdigit()` on ASCII. */
  predicate IsDigits(s: string)
  {
    |s| > 0 && forall i :: 0 <= i < |s| ==> IsDigit(s[i])
  }

  /** `int(s)` for a string of decimal digits. */
  function DigitsValue(s: string): nat
  {
    if |s| == 0 then 0
    else 10 * DigitsValue(s[..|s| - 1]) + DigitOf(s[|s| - 1])
  }

  /** The value of a decimal digit. */
  function DigitOf(c: char): (d: nat)
    ensures d < 10
  {
    if IsDigit(c) then c as int - '0' as int else 0
  }

  function DigitChar(d: nat): (c: char)
    requires d < 10
    ensures IsDigit(c) && DigitOf(c) == d
  {
    ('0' as int + d) as char
  }

  /** `str(k)` for a natural number. */
  function NatToString(k: nat): (r: string)
    ensures IsDigits(r)
  {
    if k < 10 then [DigitChar(k)] else NatToString(k / 10) + [DigitChar(k % 10)]
  }

  /** Reading back a printed number gives the number. */
  lemma {:induction false} DigitsValueOfNatToString(k: nat)
    ensures DigitsValue(NatToString(k)) == k
  {
    if k >= 10 {
      var s := NatToString(k);
      assert s[..|s| - 1] == NatToString(k / 10);
      DigitsValueOfNatToString(k / 10);
    }
  }

  /** `str(i)` for an int. */
  function IntToString(i: int): (s: string)
    ensures |s| > 0
    ensures i < 0 <==> s[0] == '-'
  {
    if i < 0 then "-" + NatToString(-i) else NatToString(i)
  }

  /** Different integers print differently. */
  lemma IntToStringInjective(i: int, j: int)
    requires IntToString(i) == IntToString(j)
    ensures i == j
  {
    if i < 0 {
      assert IntToString(i)[1..] == NatToString(-i);
      assert IntToString(j)[1..] == NatToString(-j);
      DigitsValueOfNatToString(-i);
      DigitsValueOfNatToString(-j);
    } else {
      DigitsValueOfNatToString(i);
      DigitsValueOfNatToString(j);
    }
  }

  // ---------------------------------------------------------------
  // Order

  /** Python's `<` on strings: character by character, a proper prefix
      before any of its extensions. */
  predicate StrLess(a: string, b: string)
    decreases |a|
  {
    if |a| == 0 then |b| > 0
    else |b| > 0 && (a[0] < b[0] || (a[0] == b[0] && StrLess(a[1..], b[1..])))
  }

  lemma {:induction false} StrLessIrreflexive(a: string)
    ensures !StrLess(a, a)
    decreases |a|
  {
    if |a| > 0 {
      StrLessIrreflexive(a[1..]);
    }
  }

  lemma {:induction false} StrLessTrans(a: string, b: string, c: string)
    requires StrLess(a, b) && StrLess(b, c)
    ensures StrLess(a, c)
    decreases |a|
  {
    if |a| > 0 && a[0] == b[0] && b[0] == c[0] {
      StrLessTrans(a[1..], b[1..], c[1..]);
    }
  }

  lemma {:induction false} StrLessTotal(a: string, b: string)
    ensures a == b || StrLess(a, b) || StrLess(b, a)
    decreases |a|
  {
    if |a| > 0 && |b| > 0 && a[0] == b[0] {
      StrLessTotal(a[1..], b[1..]);
      if a[1..] == b[1..] {
        assert a == [a[0]] + a[1..] && b == [b[0]] + b[1..];
      }
    }
  }

  /** m is the smallest member of s. */
  predicate IsLeast(m: string, s: set<string>)
  {
    m in s && forall y :: y in s && y != m ==> StrLess(m, y)
  }

  lemma {:induction false} LeastExists(s: set<string>)
    requires s != {}
    ensures exists m :: IsLeast(m, s)
    decreases |s|
  {
    var x :| x in s;
    if s - {x} == {} {
      assert s == {x};
      assert IsLeast(x, s);
    } else {
      LeastExists(s - {x});
      var m :| IsLeast(m, s - {x});
      StrLessTotal(m, x);
      if StrLess(m, x) {
        assert IsLeast(m, s);
      } else {
        forall y | y in s && y != x
          ensures StrLess(x, y)
        {
          if y != m {
            StrLessTrans(x, m, y);
          }
        }
        assert IsLeast(x, s);
      }
    }
  }

  lemma LeastUnique(s: set<string>)
    ensures forall m1, m2 :: IsLeast(m1, s) && IsLeast(m2, s) ==> m1 == m2
  {
    forall m1, m2 | IsLeast(m1, s) && IsLeast(m2, s)
      ensures m1 == m2
    {
      if m1 != m2 {
        StrLessTrans(m1, m2, m1);
        StrLessIrreflexive(m1);
      }
    }
  }

  /** `sorted(s)` for a set of strings: every member once, ascending. */
  function SortedList(s: set<string>): (r: seq<string>)
    ensures |r| == |s| && forall k :: k in r <==> k in s
    ensures forall i, j :: 0 <= i < j < |r| ==> StrLess(r[i], r[j])
    decreases |s|
  {
    if s == {} then []
    else
      LeastExists(s);
      LeastUnique(s);
      var m :| IsLeast(m, s);
      [m] + SortedList(s - {m})
  }

  /** Lower-casing twice is lower-casing once. */
  lemma LowerIdempotent(s: string)
    ensures Lower(Lower(s)) == Lower(s)
  {
  }
}
