/** The few Python string operations the video-link filter relies on: `str.strip()`, the `in` test for
    substrings and `str.replace`, together with `split`/`join`, which characterise `replace`. */
module PyStrings {

  /** The ASCII characters `str.isspace()` accepts: space, tab to carriage return, and the four
      information separators. */
  predicate IsSpace(c: char) {
    c == ' ' || ('\t' <= c <= '\r') || ('\U{001C}' <= c <= '\U{001F}')
  }

  /** A string `str.strip()` leaves alone: empty, or neither end is whitespace. */
  predicate Stripped(s: string) {
    |s| == 0 || (!IsSpace(s[0]) && !IsSpace(s[|s| - 1]))
  }

  /** `r` is `s` with whitespace-only margins `s[..i]` and `s[j..]` cut off. */
  predicate TrimmedAt(s: string, r: string, i: nat, j: nat) {
    && i <= j <= |s|
    && r == s[i..j]
    && (forall k :: 0 <= k < i ==> IsSpace(s[k]))
    && (forall k :: j <= k < |s| ==> IsSpace(s[k]))
  }

  /** The number of whitespace characters at the front. */
  function LeadingSpaces(s: string): (n: nat)
    ensures n <= |s|
    ensures forall k :: 0 <= k < n ==> IsSpace(s[k])
    ensures n < |s| ==> !IsSpace(s[n])
  {
    if |s| > 0 && IsSpace(s[0]) then 1 + LeadingSpaces(s[1..]) else 0
  }

  /** The number of whitespace characters at the back. */
  function TrailingSpaces(s: string): (n: nat)
    ensures n <= |s|
    ensures forall k :: |s| - n <= k < |s| ==> IsSpace(s[k])
    ensures n < |s| ==> !IsSpace(s[|s| - n - 1])
  {
    if |s| > 0 && IsSpace(s[|s| - 1]) then 1 + TrailingSpaces(s[..|s| - 1]) else 0
  }

  /** `str.strip()`: the longest middle part between whitespace-only margins. */
  function Strip(s: string): (r: string)
    ensures Stripped(r)
    ensures exists i: nat, j: nat :: TrimmedAt(s, r, i, j)
  {
    var i := LeadingSpaces(s);
    var t := s[i..];
    var j := i + |t| - TrailingSpaces(t);
    assert t[..|t| - TrailingSpaces(t)] == s[i..j];
    assert TrimmedAt(s, s[i..j], i, j);
    s[i..j]
  }

  /** Stripping is unique: any cut with whitespace-only margins that leaves a stripped middle is the
      cut `Strip` makes. */
  lemma StripUnique(s: string, r: string, i: nat, j: nat)
    requires TrimmedAt(s, r, i, j) && Stripped(r)
    ensures Strip(s) == r
  {
    var i': nat, j': nat :| TrimmedAt(s, Strip(s), i', j');
  }

  /** `strip` leaves exactly the stripped strings unchanged, and so is idempotent. */
  lemma {:induction false} StripFixed(s: string)
    ensures Strip(s) == s <==> Stripped(s)
    ensures Strip(Strip(s)) == Strip(s)
  {
    assert TrimmedAt(s, s, 0, |s|);
    if Stripped(s) {
      StripUnique(s, s, 0, |s|);
    }
    var r := Strip(s);
    assert TrimmedAt(r, r, 0, |r|);
    StripUnique(r, r, 0, |r|);
  }

  /** `t in s`. */
  function Contains(s: string, t: string): (r: bool)
    ensures r <==> exists i :: 0 <= i <= |s| && t <= s[i..]
  {
    if t <= s then
      assert t <= s[0..];
      true
    else if |s| == 0 then false
    else
      var r := Contains(s[1..], t);
      assert forall i :: 1 <= i <= |s| ==> s[1..][i - 1..] == s[i..];
      r
  }

  /** An occurrence at a known position. */
  lemma ContainsAt(s: string, t: string, i: nat)
    requires i <= |s| && t <= s[i..]
    ensures Contains(s, t)
  {
  }

  /** A string occurs in itself surrounded by any text. */
  lemma ContainsMiddle(a: string, t: string, b: string)
    ensures Contains(a + t + b, t)
  {
    assert (a + t + b)[|a|..] == t + b;
    ContainsAt(a + t + b, t, |a|);
  }

  /** Text on either side keeps an occurrence. */
  lemma ContainsExtend(a: string, s: string, b: string, t: string)
    requires Contains(s, t)
    ensures Contains(a + s + b, t)
  {
    var i :| 0 <= i <= |s| && t <= s[i..];
    assert s[i..] + b == (a + s + b)[|a| + i..];
  }

  /** `s.replace(o, n)`: scanning from the left, every occurrence of `o` that does not overlap an
      earlier one is replaced by `n`. */
  function ReplaceAll(s: string, o: string, n: string): (r: string)
    requires |o| > 0
    ensures |s| > 0 && |n| > 0 ==>
      && |r| > 0
      && (r[0] == s[0] || r[0] == n[0])
      && (r[|r| - 1] == s[|s| - 1] || r[|r| - 1] == n[|n| - 1])
    decreases |s|
  {
    if |s| == 0 then []
    else if o <= s then n + ReplaceAll(s[|o|..], o, n)
    else [s[0]] + ReplaceAll(s[1..], o, n)
  }

  /** Replacing with text whose ends are not whitespace keeps a stripped string stripped. */
  lemma ReplaceStripped(s: string, o: string, n: string)
    requires |o| > 0
    requires |n| > 0 && !IsSpace(n[0]) && !IsSpace(n[|n| - 1])
    ensures Stripped(s) ==> Stripped(ReplaceAll(s, o, n))
  {
  }

  /** `s.split(o)`: the pieces between the occurrences `replace` finds; never empty. */
  function Split(s: string, o: string): (r: seq<string>)
    requires |o| > 0
    ensures |r| > 0 && r[0] <= s
    decreases |s|
  {
    if |s| == 0 then [[]]
    else if o <= s then [[]] + Split(s[|o|..], o)
    else
      var rest := Split(s[1..], o);
      [[s[0]] + rest[0]] + rest[1..]
  }

  /** `sep.join(parts)`. */
  function Join(sep: string, parts: seq<string>): (r: string)
    ensures |parts| == 1 ==> r == parts[0]
  {
    if |parts| == 0 then []
    else if |parts| == 1 then parts[0]
    else parts[0] + sep + Join(sep, parts[1..])
  }

  /** Text in front of the first piece comes out in front of the join. */
  lemma JoinFront(sep: string, x: string, parts: seq<string>)
    requires |parts| > 0
    ensures Join(sep, [x + parts[0]] + parts[1..]) == x + Join(sep, parts)
  {
    var ps := [x + parts[0]] + parts[1..];
    if |parts| > 1 {
      assert ps[1..] == parts[1..];
    }
  }

  /** Joining the pieces with the separator gives back the original string. */
  lemma {:induction false} JoinSplit(s: string, o: string)
    requires |o| > 0
    ensures Join(o, Split(s, o)) == s
    decreases |s|
  {
    if |s| == 0 {
    } else if o <= s {
      var rest := Split(s[|o|..], o);
      var ps := [[]] + rest;
      assert Split(s, o) == ps;
      assert ps[1..] == rest;
      assert Join(o, ps) == [] + o + Join(o, rest);
      JoinSplit(s[|o|..], o);
      assert s == o + s[|o|..];
    } else {
      var rest := Split(s[1..], o);
      assert Split(s, o) == [[s[0]] + rest[0]] + rest[1..];
      JoinSplit(s[1..], o);
      JoinFront(o, [s[0]], rest);
      assert s == [s[0]] + s[1..];
    }
  }

  /** `replace` is `n.join(s.split(o))`: the pieces between occurrences are kept as they are. */
  lemma {:induction false} ReplaceIsJoinSplit(s: string, o: string, n: string)
    requires |o| > 0
    ensures ReplaceAll(s, o, n) == Join(n, Split(s, o))
    decreases |s|
  {
    if |s| == 0 {
    } else if o <= s {
      var rest := Split(s[|o|..], o);
      var ps := [[]] + rest;
      assert Split(s, o) == ps;
      assert ps[1..] == rest;
      assert Join(n, ps) == [] + n + Join(n, rest);
      ReplaceIsJoinSplit(s[|o|..], o, n);
      assert ReplaceAll(s, o, n) == n + ReplaceAll(s[|o|..], o, n);
    } else {
      var rest := Split(s[1..], o);
      assert Split(s, o) == [[s[0]] + rest[0]] + rest[1..];
      ReplaceIsJoinSplit(s[1..], o, n);
      JoinFront(n, [s[0]], rest);
      assert ReplaceAll(s, o, n) == [s[0]] + ReplaceAll(s[1..], o, n);
    }
  }

  /** No piece of a split contains the separator. */
  lemma {:induction false} SplitPiecesFree(s: string, o: string)
    requires |o| > 0
    ensures forall piece :: piece in Split(s, o) ==> !Contains(piece, o)
    decreases |s|
  {
    if |s| == 0 {
    } else if o <= s {
      SplitPiecesFree(s[|o|..], o);
    } else {
      var rest := Split(s[1..], o);
      SplitPiecesFree(s[1..], o);
      assert rest[0] in rest;
    }
  }

  /** Without an occurrence `replace` changes nothing. */
  lemma {:induction false} ReplaceAbsent(s: string, o: string, n: string)
    requires |o| > 0 && !Contains(s, o)
    ensures ReplaceAll(s, o, n) == s
    decreases |s|
  {
    if |s| > 0 {
      assert !(o <= s[0..]);
      assert s[0..] == s;
      assert !Contains(s[1..], o) by {
        forall i | 0 <= i <= |s[1..]| ensures !(o <= s[1..][i..]) {
          assert s[1..][i..] == s[i + 1..];
        }
      }
      ReplaceAbsent(s[1..], o, n);
    }
  }

  /** If `o` occurs, the replacement text occurs in the result. */
  lemma {:induction false} ReplacePresent(s: string, o: string, n: string)
    requires |o| > 0 && Contains(s, o)
    ensures Contains(ReplaceAll(s, o, n), n)
    decreases |s|
  {
    if o <= s {
      assert n <= ReplaceAll(s, o, n)[0..];
    } else {
      var i :| 0 <= i <= |s| && o <= s[i..];
      assert i > 0;
      assert o <= s[1..][i - 1..];
      ReplacePresent(s[1..], o, n);
      ContainsExtend([s[0]], ReplaceAll(s[1..], o, n), [], n);
      assert [s[0]] + ReplaceAll(s[1..], o, n) + [] == ReplaceAll(s, o, n);
    }
  }
}
