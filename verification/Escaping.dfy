/** Escaping of values in the file backend: two chains of string replacements. */
module Escaping {

  /** Python's str.replace for a non-empty pattern: left to right, without overlaps. */
  function Replace(s: string, old_: string, new_: string): string
    requires old_ != ""
    decreases |s|
  {
    if |s| < |old_| then s
    else if s[..|old_|] == old_ then new_ + Replace(s[|old_|..], old_, new_)
    else [s[0]] + Replace(s[1..], old_, new_)
  }

  function Escape(s: string): string {
    Replace(Replace(Replace(Replace(s, "\n", "\\n"), ";", "\\;"), "#", "\\#"), "%", "%%")
  }

  function Unescape(s: string): string {
    Replace(Replace(Replace(Replace(s, "\\n", "\n"), "\\;", ";"), "\\#", "#"), "%%", "%")
  }

  // ----- the two kinds of replacement used -----

  /** Each c becomes the two characters x, y. */
  function Expand(s: string, c: char, x: char, y: char): string {
    if s == "" then "" else (if s[0] == c then [x, y] else [s[0]]) + Expand(s[1..], c, x, y)
  }

  /** Each pair x, y becomes c. */
  function Contract(s: string, x: char, y: char, c: char): string {
    if |s| < 2 then s
    else if s[0] == x && s[1] == y then [c] + Contract(s[2..], x, y, c)
    else [s[0]] + Contract(s[1..], x, y, c)
  }

  lemma {:induction false} ReplaceIsExpand(s: string, c: char, x: char, y: char)
    ensures Replace(s, [c], [x, y]) == Expand(s, c, x, y)
  {
    if s == "" {
    } else {
      assert s[..1] == [s[0]];
      ReplaceIsExpand(s[1..], c, x, y);
    }
  }

  lemma {:induction false} ReplaceIsContract(s: string, x: char, y: char, c: char)
    ensures Replace(s, [x, y], [c]) == Contract(s, x, y, c)
    decreases |s|
  {
    if |s| < 2 {
    } else {
      assert s[..2] == [s[0], s[1]];
      ReplaceIsContract(s[1..], x, y, c);
      ReplaceIsContract(s[2..], x, y, c);
    }
  }

  /** Contracting undoes the expansion of c to a pair that ends in c, whatever else s contains. */
  lemma {:induction false} ContractUndoes(s: string, x: char, c: char)
    ensures Contract(Expand(s, c, x, c), x, c, c) == s
  {
    if s == "" {
    } else {
      var rest := s[1..];
      ContractUndoes(rest, x, c);
      var e := Expand(rest, c, x, c);
      if s[0] == c {
        assert Expand(s, c, x, c) == [x, c] + e;
        assert ([x, c] + e)[2..] == e;
      } else {
        assert Expand(s, c, x, c) == [s[0]] + e;
        assert ([s[0]] + e)[1..] == e;
        if e != "" { assert e[0] == if rest[0] == c then x else rest[0]; }
      }
    }
  }

  lemma ExpandOne(a: char, t: string, c: char, x: char, y: char)
    ensures Expand([a] + t, c, x, y) == (if a == c then [x, y] else [a]) + Expand(t, c, x, y)
  {
    assert ([a] + t)[1..] == t;
  }

  lemma ContractOne(a: char, t: string, x: char, y: char, c: char)
    requires a != x || t == "" || t[0] != y
    ensures Contract([a] + t, x, y, c) == [a] + Contract(t, x, y, c)
  {
    assert ([a] + t)[1..] == t;
  }

  lemma ContractPair(t: string, x: char, y: char, c: char)
    ensures Contract([x, y] + t, x, y, c) == [c] + Contract(t, x, y, c)
  {
    assert ([x, y] + t)[2..] == t;
  }

  lemma ExpandHead(t: string, c: char, x: char, y: char)
    ensures t == "" ==> Expand(t, c, x, y) == ""
    ensures t != "" ==> Expand(t, c, x, y) != "" && Expand(t, c, x, y)[0] == if t[0] == c then x else t[0]
  {
  }

  /** Contracting backslash pairs and expanding another character do not interfere. */
  lemma {:induction false} Commute(s: string, c: char, x: char, b: char, d: char)
    requires c != '\\' && c != b && c != d && x != b
    ensures Contract(Expand(s, c, x, c), '\\', b, d) == Expand(Contract(s, '\\', b, d), c, x, c)
    decreases |s|
  {
    if s == "" {
    } else {
      var a, rest := s[0], s[1..];
      assert s == [a] + rest;
      if a == '\\' && rest != "" && rest[0] == b {
        var rest2 := rest[1..];
        assert s == ['\\', b] + rest2 && rest == [b] + rest2;
        Commute(rest2, c, x, b, d);
        CommutePair(rest2, c, x, b, d);
      } else {
        Commute(rest, c, x, b, d);
        CommuteOne(a, rest, c, x, b, d);
      }
    }
  }

  lemma CommutePair(t: string, c: char, x: char, b: char, d: char)
    requires c != '\\' && c != b && c != d && x != b
    requires Contract(Expand(t, c, x, c), '\\', b, d) == Expand(Contract(t, '\\', b, d), c, x, c)
    ensures Contract(Expand(['\\', b] + t, c, x, c), '\\', b, d) == Expand(Contract(['\\', b] + t, '\\', b, d), c, x, c)
  {
    hide Expand, Contract;
    var e, u := Expand(t, c, x, c), Contract(t, '\\', b, d);
    assert ['\\', b] + t == ['\\'] + ([b] + t);
    ExpandOne('\\', [b] + t, c, x, c);
    ExpandOne(b, t, c, x, c);
    assert ['\\'] + ([b] + e) == ['\\', b] + e;
    ContractPair(e, '\\', b, d);
    ContractPair(t, '\\', b, d);
    ExpandOne(d, u, c, x, c);
  }

  lemma CommuteOne(a: char, t: string, c: char, x: char, b: char, d: char)
    requires c != '\\' && c != b && c != d && x != b
    requires a != '\\' || t == "" || t[0] != b
    requires Contract(Expand(t, c, x, c), '\\', b, d) == Expand(Contract(t, '\\', b, d), c, x, c)
    ensures Contract(Expand([a] + t, c, x, c), '\\', b, d) == Expand(Contract([a] + t, '\\', b, d), c, x, c)
  {
    ExpandHead(t, c, x, c);
    hide Expand, Contract;
    var e, u := Expand(t, c, x, c), Contract(t, '\\', b, d);
    ExpandOne(a, t, c, x, c);
    ContractOne(a, t, '\\', b, d);
    ExpandOne(a, u, c, x, c);
    if a == c {
      assert [x, c] + e == [x] + ([c] + e);
      ContractOne(x, [c] + e, '\\', b, d);
      ContractOne(c, e, '\\', b, d);
      assert [x] + ([c] + Contract(e, '\\', b, d)) == [x, c] + Contract(e, '\\', b, d);
    } else {
      ContractOne(a, e, '\\', b, d);
    }
  }

  /** For newlines the pair does not end in the character itself, so pairs of s are contracted too. */
  lemma {:induction false} NewlinePass(s: string)
    ensures Contract(Expand(s, '\n', '\\', 'n'), '\\', 'n', '\n') == Contract(s, '\\', 'n', '\n')
    decreases |s|
  {
    if s == "" {
    } else {
      var a, rest := s[0], s[1..];
      assert s == [a] + rest;
      if a == '\\' && rest != "" && rest[0] == 'n' {
        var rest2 := rest[1..];
        assert s == ['\\', 'n'] + rest2 && rest == ['n'] + rest2;
        NewlinePass(rest2);
        NewlinePair(rest2);
      } else {
        NewlinePass(rest);
        NewlineOne(a, rest);
      }
    }
  }

  lemma NewlinePair(t: string)
    requires Contract(Expand(t, '\n', '\\', 'n'), '\\', 'n', '\n') == Contract(t, '\\', 'n', '\n')
    ensures
      Contract(Expand(['\\', 'n'] + t, '\n', '\\', 'n'), '\\', 'n', '\n') ==
      Contract(['\\', 'n'] + t, '\\', 'n', '\n')
  {
    hide Expand, Contract;
    var e := Expand(t, '\n', '\\', 'n');
    assert ['\\', 'n'] + t == ['\\'] + (['n'] + t);
    ExpandOne('\\', ['n'] + t, '\n', '\\', 'n');
    ExpandOne('n', t, '\n', '\\', 'n');
    assert ['\\'] + (['n'] + e) == ['\\', 'n'] + e;
    ContractPair(e, '\\', 'n', '\n');
    ContractPair(t, '\\', 'n', '\n');
  }

  lemma NewlineOne(a: char, t: string)
    requires a != '\\' || t == "" || t[0] != 'n'
    requires Contract(Expand(t, '\n', '\\', 'n'), '\\', 'n', '\n') == Contract(t, '\\', 'n', '\n')
    ensures Contract(Expand([a] + t, '\n', '\\', 'n'), '\\', 'n', '\n') == Contract([a] + t, '\\', 'n', '\n')
  {
    ExpandHead(t, '\n', '\\', 'n');
    hide Expand, Contract;
    var e := Expand(t, '\n', '\\', 'n');
    ExpandOne(a, t, '\n', '\\', 'n');
    ContractOne(a, t, '\\', 'n', '\n');
    if a == '\n' {
      ContractPair(e, '\\', 'n', '\n');
    } else {
      ContractOne(a, e, '\\', 'n', '\n');
    }
  }

  ghost predicate HasPair(s: string, x: char, y: char) {
    exists i :: 0 <= i < |s| - 1 && s[i] == x && s[i + 1] == y
  }

  lemma {:induction false} ContractChanges(s: string, x: char, y: char, c: char)
    ensures |Contract(s, x, y, c)| <= |s|
    ensures HasPair(s, x, y) ==> |Contract(s, x, y, c)| < |s|
    ensures !HasPair(s, x, y) ==> Contract(s, x, y, c) == s
    decreases |s|
  {
    if |s| < 2 {
    } else {
      ContractChanges(s[1..], x, y, c);
      if s[0] == x && s[1] == y {
        ContractChanges(s[2..], x, y, c);
        assert s[0 + 1] == y;
      } else {
        if HasPair(s[1..], x, y) {
          var i :| 0 <= i < |s[1..]| - 1 && s[1..][i] == x && s[1..][i + 1] == y;
          assert s[i + 1] == x && s[i + 2] == y;
        }
        if HasPair(s, x, y) {
          var i :| 0 <= i < |s| - 1 && s[i] == x && s[i + 1] == y;
          assert s[1..][i - 1] == x && s[1..][i] == y;
        }
      }
    }
  }

  /** What a value looks like after writing and reading: backslash-n pairs have become newlines,
      and nothing else has changed. */
  lemma RoundTripValue(s: string)
    ensures Unescape(Escape(s)) == Contract(s, '\\', 'n', '\n')
  {
    var n := Expand(s, '\n', '\\', 'n');
    var t := Contract(s, '\\', 'n', '\n');
    var semi, hash := Expand(n, ';', '\\', ';'), Expand(Expand(n, ';', '\\', ';'), '#', '\\', '#');
    ReplaceIsExpand(s, '\n', '\\', 'n');
    ReplaceIsExpand(n, ';', '\\', ';');
    ReplaceIsExpand(semi, '#', '\\', '#');
    ReplaceIsExpand(hash, '%', '%', '%');
    var escaped := Expand(hash, '%', '%', '%');
    assert Escape(s) == escaped;

    NewlinePass(s);
    Commute(n, ';', '\\', 'n', '\n');
    Commute(semi, '#', '\\', 'n', '\n');
    Commute(hash, '%', '%', 'n', '\n');
    var tSemi := Expand(t, ';', '\\', ';');
    var tHash := Expand(tSemi, '#', '\\', '#');
    ReplaceIsContract(escaped, '\\', 'n', '\n');
    var u1 := Expand(tHash, '%', '%', '%');
    assert Replace(escaped, "\\n", "\n") == u1;

    Commute(tSemi, '#', '\\', ';', ';');
    Commute(tHash, '%', '%', ';', ';');
    ContractUndoes(t, '\\', ';');
    ReplaceIsContract(u1, '\\', ';', ';');
    var u2 := Expand(Expand(t, '#', '\\', '#'), '%', '%', '%');
    assert Replace(u1, "\\;", ";") == u2;

    Commute(Expand(t, '#', '\\', '#'), '%', '%', '#', '#');
    ContractUndoes(t, '\\', '#');
    ReplaceIsContract(u2, '\\', '#', '#');
    var u3 := Expand(t, '%', '%', '%');
    assert Replace(u2, "\\#", "#") == u3;

    ContractUndoes(t, '%', '%');
    ReplaceIsContract(u3, '%', '%', '%');
  }

  /** Unescaping undoes escaping exactly for the strings without a backslash directly before an n. */
  lemma RoundTrip(s: string)
    ensures Unescape(Escape(s)) == s <==> !HasPair(s, '\\', 'n')
  {
    RoundTripValue(s);
    ContractChanges(s, '\\', 'n', '\n');
  }

  /** The smallest value that comes back changed. */
  lemma BackslashNIsLost()
    ensures Unescape(Escape("\\n")) == "\n"
  {
    RoundTripValue("\\n");
  }
}
