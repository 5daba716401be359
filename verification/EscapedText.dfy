/** What escaped and unescaped values look like, character by character and pair by pair. */
module EscapedText {
  import opened Escaping

  /** A chain of four expansions. */
  lemma EscapeExpands(s: string)
    ensures
      Escape(s) ==
      Expand(Expand(Expand(Expand(s, '\n', '\\', 'n'), ';', '\\', ';'), '#', '\\', '#'), '%', '%', '%')
  {
    var n := Expand(s, '\n', '\\', 'n');
    var semicolon := Expand(n, ';', '\\', ';');
    ReplaceIsExpand(s, '\n', '\\', 'n');
    ReplaceIsExpand(n, ';', '\\', ';');
    ReplaceIsExpand(semicolon, '#', '\\', '#');
    ReplaceIsExpand(Expand(semicolon, '#', '\\', '#'), '%', '%', '%');
  }

  lemma {:induction false} ExpandConcat(a: string, b: string, c: char, x: char, y: char)
    ensures Expand(a + b, c, x, y) == Expand(a, c, x, y) + Expand(b, c, x, y)
  {
    hide Expand;
    if a == "" {
      assert a + b == b;
      ExpandHead(a, c, x, y);
    } else {
      var first, rest := a[0], a[1..];
      ExpandConcat(rest, b, c, x, y);
      ExpandOne(first, rest + b, c, x, y);
      ExpandOne(first, rest, c, x, y);
      assert a + b == [first] + (rest + b) && a == [first] + rest;
    }
  }

  /** Values are escaped piece by piece. */
  lemma EscapeConcat(a: string, b: string)
    ensures Escape(a + b) == Escape(a) + Escape(b)
  {
    hide Expand;
    EscapeExpands(a);
    EscapeExpands(b);
    EscapeExpands(a + b);
    ExpandConcat(a, b, '\n', '\\', 'n');
    var a1, b1 := Expand(a, '\n', '\\', 'n'), Expand(b, '\n', '\\', 'n');
    ExpandConcat(a1, b1, ';', '\\', ';');
    var a2, b2 := Expand(a1, ';', '\\', ';'), Expand(b1, ';', '\\', ';');
    ExpandConcat(a2, b2, '#', '\\', '#');
    ExpandConcat(Expand(a2, '#', '\\', '#'), Expand(b2, '#', '\\', '#'), '%', '%', '%');
  }

  /** What becomes of one character. */
  lemma EscapeOne(c: char)
    ensures Escape("") == ""
    ensures c == '\n' ==> Escape([c]) == "\\n"
    ensures c == ';' ==> Escape([c]) == "\\;"
    ensures c == '#' ==> Escape([c]) == "\\#"
    ensures c == '%' ==> Escape([c]) == "%%"
    ensures c !in "\n;#%" ==> Escape([c]) == [c]
  {
    EscapeExpands("");
    EscapeExpands([c]);
    ExpandOne(c, "", '\n', '\\', 'n');
    assert [c] + "" == [c];
    if c == '\n' {
      EscapedPair('\\', 'n');
    } else if c == ';' {
      ExpandOne(c, "", ';', '\\', ';');
      ExpandTwo('\\', ';', '#', '\\');
      ExpandTwo('\\', ';', '%', '%');
    } else if c == '#' {
      ExpandOne(c, "", ';', '\\', ';');
      ExpandOne(c, "", '#', '\\', '#');
      ExpandTwo('\\', '#', '%', '%');
    } else {
      ExpandOne(c, "", ';', '\\', ';');
      ExpandOne(c, "", '#', '\\', '#');
      ExpandOne(c, "", '%', '%', '%');
    }
  }

  /** A pair without c is left alone. */
  lemma ExpandTwo(a: char, b: char, c: char, x: char)
    requires a != c && b != c
    ensures Expand([a, b], c, x, c) == [a, b]
  {
    ExpandOne(a, [b], c, x, c);
    ExpandOne(b, "", c, x, c);
    assert [a] + [b] == [a, b] && [b] + "" == [b];
  }

  lemma EscapedPair(a: char, b: char)
    requires a !in ";#%" && b !in ";#%"
    ensures Expand(Expand(Expand([a, b], ';', '\\', ';'), '#', '\\', '#'), '%', '%', '%') == [a, b]
  {
    ExpandTwo(a, b, ';', '\\');
    ExpandTwo(a, b, '#', '\\');
    ExpandTwo(a, b, '%', '%');
  }

  /** Every semicolon and every hash has a backslash before it. */
  ghost predicate Guarded(s: string) {
    forall i :: 0 <= i < |s| && s[i] in ";#" ==> i > 0 && s[i - 1] == '\\'
  }

  ghost function CountOf(s: string, c: char): nat {
    if s == "" then 0 else CountOf(s[1..], c) + if s[0] == c then 1 else 0
  }

  lemma {:induction false} CountConcat(a: string, b: string, c: char)
    ensures CountOf(a + b, c) == CountOf(a, c) + CountOf(b, c)
  {
    if a == "" {
      assert a + b == b;
    } else {
      CountConcat(a[1..], b, c);
      assert (a + b)[1..] == a[1..] + b;
    }
  }

  /** An escaped value holds no newline, no semicolon or hash without a backslash before it, and twice
      the percent signs; semicolons and hashes are as many as before. */
  lemma {:induction false} EscapedIsSafe(s: string)
    ensures '\n' !in Escape(s) && Guarded(Escape(s))
    ensures CountOf(Escape(s), '%') == 2 * CountOf(s, '%')
    ensures CountOf(Escape(s), ';') == CountOf(s, ';') && CountOf(Escape(s), '#') == CountOf(s, '#')
  {
    hide Escape;
    if s == "" {
      EscapeOne('x');
    } else {
      var c, rest := s[0], s[1..];
      EscapedIsSafe(rest);
      EscapeOne(c);
      assert s == [c] + rest;
      EscapeConcat([c], rest);
      var first := Escape([c]);
      forall d: char ensures CountOf(Escape(s), d) == CountOf(first, d) + CountOf(Escape(rest), d) {
        CountConcat(first, Escape(rest), d);
      }
      CountsOfFirst(c, first);
      GuardedConcat(first, Escape(rest));
    }
  }

  lemma CountsOfFirst(c: char, first: string)
    requires first == (if c == '\n' then "\\n" else if c in ";#" then ['\\', c] else if c == '%' then "%%" else [c])
    ensures '\n' !in first && Guarded(first)
    ensures CountOf(first, '%') == if c == '%' then 2 else 0
    ensures CountOf(first, ';') == if c == ';' then 1 else 0
    ensures CountOf(first, '#') == if c == '#' then 1 else 0
  {
    forall d: char ensures CountOf(first, d) == CountBoth(first, d) {
      CountOne(first[0], d);
      if |first| == 2 {
        CountOne(first[1], d);
        CountConcat([first[0]], [first[1]], d);
        assert first == [first[0]] + [first[1]];
      } else {
        assert first == [first[0]];
      }
    }
  }

  ghost function CountBoth(s: string, d: char): nat
    requires 1 <= |s| <= 2
  {
    (if s[0] == d then 1 else 0) + (if |s| == 2 && s[1] == d then 1 else 0)
  }

  lemma CountOne(c: char, d: char)
    ensures CountOf([c], d) == if c == d then 1 else 0
  {
    assert [c][1..] == "";
  }

  lemma GuardedConcat(a: string, b: string)
    requires Guarded(a) && Guarded(b)
    ensures Guarded(a + b)
  {
    var s := a + b;
    forall i | 0 <= i < |s| && s[i] in ";#" ensures i > 0 && s[i - 1] == '\\' {
      if i >= |a| { assert b[i - |a|] == s[i] && s[i - 1] == b[i - |a| - 1]; }
    }
  }

  // ----- unescaping -----

  lemma UnescapeContracts(s: string)
    ensures
      Unescape(s) ==
      Contract(Contract(Contract(Contract(s, '\\', 'n', '\n'), '\\', ';', ';'), '\\', '#', '#'), '%', '%', '%')
  {
    var n := Contract(s, '\\', 'n', '\n');
    var semicolon := Contract(n, '\\', ';', ';');
    ReplaceIsContract(s, '\\', 'n', '\n');
    ReplaceIsContract(n, '\\', ';', ';');
    ReplaceIsContract(semicolon, '\\', '#', '#');
    ReplaceIsContract(Contract(semicolon, '\\', '#', '#'), '%', '%', '%');
  }

  /** No pair begins at the last character. */
  ghost predicate EndsFreely(a: string) {
    a == "" || a[|a| - 1] !in "\\%"
  }

  lemma {:induction false} ContractConcat(a: string, b: string, x: char, y: char, c: char)
    requires a == "" || a[|a| - 1] != x
    ensures Contract(a + b, x, y, c) == Contract(a, x, y, c) + Contract(b, x, y, c)
    decreases |a|
  {
    if a == "" {
      assert a + b == b;
    } else if |a| == 1 {
      assert a == [a[0]] && a + b == [a[0]] + b;
      ContractOne(a[0], b, x, y, c);
    } else if a[0] == x && a[1] == y {
      assert (a + b)[2..] == a[2..] + b;
      ContractConcat(a[2..], b, x, y, c);
    } else {
      assert (a + b)[1..] == a[1..] + b;
      ContractConcat(a[1..], b, x, y, c);
    }
  }

  /** The last character stays, or is the one contracted to. */
  lemma {:induction false} ContractEnd(a: string, x: char, y: char, c: char)
    ensures a == "" <==> Contract(a, x, y, c) == ""
    ensures a != "" ==> Contract(a, x, y, c)[|Contract(a, x, y, c)| - 1] in {a[|a| - 1], c}
    decreases |a|
  {
    if |a| < 2 {
    } else if a[0] == x && a[1] == y {
      ContractEnd(a[2..], x, y, c);
    } else {
      ContractEnd(a[1..], x, y, c);
    }
  }

  /** Behind a character that begins no pair, values are unescaped piece by piece. */
  lemma UnescapeConcat(a: string, b: string)
    requires EndsFreely(a)
    ensures Unescape(a + b) == Unescape(a) + Unescape(b)
  {
    hide Contract;
    UnescapeContracts(a);
    UnescapeContracts(b);
    UnescapeContracts(a + b);
    ContractConcat(a, b, '\\', 'n', '\n');
    var a1, b1 := Contract(a, '\\', 'n', '\n'), Contract(b, '\\', 'n', '\n');
    ContractEnd(a, '\\', 'n', '\n');
    ContractEnd(a1, '\\', ';', ';');
    ContractConcat(a1, b1, '\\', ';', ';');
    var a2, b2 := Contract(a1, '\\', ';', ';'), Contract(b1, '\\', ';', ';');
    ContractConcat(a2, b2, '\\', '#', '#');
    ContractEnd(a2, '\\', '#', '#');
    ContractConcat(Contract(a2, '\\', '#', '#'), Contract(b2, '\\', '#', '#'), '%', '%', '%');
  }

  /** One of the four pairs stands at i. */
  ghost predicate PairAt(s: string, i: int) {
    0 <= i < |s| - 1 && ((s[i] == '\\' && s[i + 1] in "n;#") || (s[i] == '%' && s[i + 1] == '%'))
  }

  /** The pair x, y stands nowhere but, perhaps, at the given place. */
  ghost predicate OnlyAt(s: string, x: char, y: char, at: int) {
    forall i :: 0 <= i < |s| - 1 && i != at ==> s[i] != x || s[i + 1] != y
  }

  lemma {:induction false} ContractOnly(a: string, x: char, y: char, c: char, b: string)
    requires OnlyAt(a + [x, y] + b, x, y, |a|)
    ensures Contract(a + [x, y] + b, x, y, c) == a + [c] + b
    decreases |a|
  {
    hide Contract;
    var s := a + [x, y] + b;
    if a == "" {
      assert s == [x, y] + b;
      ContractPair(b, x, y, c);
      forall i | 0 <= i < |b| - 1 ensures b[i] != x || b[i + 1] != y {
        assert s[i + 2] == b[i] && s[i + 3] == b[i + 1];
      }
      ContractChanges(b, x, y, c);
    } else {
      var t := a[1..] + [x, y] + b;
      assert s == [a[0]] + t;
      forall i | 0 <= i < |t| - 1 && i != |a[1..]| ensures t[i] != x || t[i + 1] != y {
        assert t[i] == s[i + 1] && t[i + 1] == s[i + 2];
      }
      ContractOnly(a[1..], x, y, c, b);
      assert s[0] != x || s[1] != y;
      ContractOne(a[0], t, x, y, c);
    }
  }

  /** A value without any of the pairs is read as it stands. */
  lemma UnescapeNone(s: string)
    requires forall i :: !PairAt(s, i)
    ensures Unescape(s) == s
  {
    hide Contract;
    UnescapeContracts(s);
    forall i | 0 <= i < |s| - 1
      ensures !(s[i] == '\\' && s[i + 1] == 'n') && !(s[i] == '\\' && s[i + 1] == ';')
      ensures !(s[i] == '\\' && s[i + 1] == '#') && !(s[i] == '%' && s[i + 1] == '%')
    {
      assert !PairAt(s, i);
    }
    ContractChanges(s, '\\', 'n', '\n');
    ContractChanges(s, '\\', ';', ';');
    ContractChanges(s, '\\', '#', '#');
    ContractChanges(s, '%', '%', '%');
  }

  /** Nothing else becomes a pair when the pair at |a| gives way to v. */
  lemma NoNewPair(a: string, pair: string, v: char, b: string, x: char, y: char)
    requires |pair| == 2 && v != x && v != y
    requires OnlyAt(a + pair + b, x, y, |a|)
    ensures !HasPair(a + [v] + b, x, y)
  {
    var s, t := a + pair + b, a + [v] + b;
    forall i | 0 <= i < |t| - 1 ensures t[i] != x || t[i + 1] != y {
      if i < |a| - 1 {
        assert t[i] == s[i] && t[i + 1] == s[i + 1];
      } else if i > |a| {
        assert t[i] == s[i + 1] && t[i + 1] == s[i + 2];
      } else {
        assert t[|a|] == v;
      }
    }
  }

  /** What the pair at |a| becomes, if there is no other. */
  lemma UnescapePair(a: string, x: char, y: char, b: string)
    requires (x == '\\' && y in "n;#") || (x == '%' && y == '%')
    requires forall i :: i != |a| ==> !PairAt(a + [x, y] + b, i)
    ensures Unescape(a + [x, y] + b) == a + [if y == 'n' then '\n' else y] + b
  {
    hide Contract;
    var s, v := a + [x, y] + b, if y == 'n' then '\n' else y;
    var t := a + [v] + b;
    UnescapeContracts(s);
    forall i | 0 <= i < |s| - 1 && i != |a|
      ensures !(s[i] == '\\' && s[i + 1] == 'n') && !(s[i] == '\\' && s[i + 1] == ';')
      ensures !(s[i] == '\\' && s[i + 1] == '#') && !(s[i] == '%' && s[i + 1] == '%')
    {
      assert !PairAt(s, i);
    }
    assert s[|a|] == x && s[|a| + 1] == y;
    PassOnPair(a, x, y, v, b, '\\', 'n', '\n');
    PassOnPair(a, x, y, v, b, '\\', ';', ';');
    PassOnPair(a, x, y, v, b, '\\', '#', '#');
    PassOnPair(a, x, y, v, b, '%', '%', '%');
  }

  /** One of the four passes: it takes the pair if this is its own, and else changes nothing, before or
      after the pair has been taken. */
  lemma PassOnPair(a: string, x: char, y: char, v: char, b: string, px: char, py: char, c: char)
    requires OnlyAt(a + [x, y] + b, px, py, |a|)
    requires (px, py, c) in {('\\', 'n', '\n'), ('\\', ';', ';'), ('\\', '#', '#'), ('%', '%', '%')}
    requires (x == '\\' && y in "n;#") || (x == '%' && y == '%')
    requires v == if y == 'n' then '\n' else y
    ensures x == px && y == py ==> Contract(a + [x, y] + b, px, py, c) == a + [v] + b
    ensures x != px || y != py ==> Contract(a + [x, y] + b, px, py, c) == a + [x, y] + b
    ensures v != px && v != py ==> Contract(a + [v] + b, px, py, c) == a + [v] + b
  {
    var s := a + [x, y] + b;
    assert s[|a|] == x && s[|a| + 1] == y;
    if x == px && y == py {
      ContractOnly(a, x, y, c, b);
    } else {
      ContractChanges(s, px, py, c);
    }
    if v != px && v != py {
      NoNewPair(a, [x, y], v, b, px, py);
      ContractChanges(a + [v] + b, px, py, c);
    }
  }
}
