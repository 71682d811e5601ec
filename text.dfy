/**
 * The string primitives of the Rust standard library that the key-value
 * server relies on: `str::split(' ')`, `[String]::join(" ")`,
 * `BufRead::lines`, `str::contains` and `format!("{}", n)` on a count.
 * Strings are sequences of Unicode scalar values.
 */
module Text {

  /** Index of the first occurrence of `c` in `s`, or `|s|` when there is none. */
  function IndexOf(s: string, c: char): (i: nat)
    ensures i <= |s|
    ensures i < |s| ==> s[i] == c
  {
    if s == [] then 0
    else if s[0] == c then 0
    else 1 + IndexOf(s[1..], c)
  }

  /** No occurrence of `c` comes before IndexOf. */
  lemma {:induction false} IndexOfFirst(s: string, c: char, j: nat)
    requires j < IndexOf(s, c)
    ensures s[j] != c
    decreases |s|
  {
    if j > 0 {
      IndexOfFirst(s[1..], c, j - 1);
    }
  }

  /** Number of occurrences of `c` in `s`. */
  function Count(s: string, c: char): nat
  {
    if s == [] then 0
    else (if s[0] == c then 1 else 0) + Count(s[1..], c)
  }

  // ---------------------------------------------------------------------
  // split / join
  // ---------------------------------------------------------------------

  /** `ts.join(sep)`: the tokens with one separator between neighbours. */
  function Join(ts: seq<string>, sep: char): string
  {
    if ts == [] then []
    else if |ts| == 1 then ts[0]
    else ts[0] + [sep] + Join(ts[1..], sep)
  }

  /**
   * `s.split(sep)`: the maximal separator-free pieces of `s`, in order,
   * including empty pieces between adjacent separators and at either end.
   * Its partner is Join: joining the pieces gives back `s`.
   */
  function Split(s: string, sep: char): (r: seq<string>)
    ensures |r| >= 1
    ensures forall i :: 0 <= i < |r| ==> sep !in r[i]
    ensures Join(r, sep) == s
    decreases |s|
  {
    if s == [] then [[]]
    else
      var rest := Split(s[1..], sep);
      if s[0] == sep then
        assert [s[0]] + Join(rest, sep) == s;
        [[]] + rest
      else
        var r := [[s[0]] + rest[0]] + rest[1..];
        assert r[1..] == rest[1..];
        assert Join(r, sep) == [s[0]] + Join(rest, sep);
        assert [s[0]] + s[1..] == s;
        r
  }

  /** The text before the first space: the keyword of a command line. */
  function Keyword(line: string): string
  {
    line[..IndexOf(line, ' ')]
  }

  /** No token contains the separator. */
  predicate SeparatorFree(ts: seq<string>, sep: char)
  {
    forall i :: 0 <= i < |ts| ==> sep !in ts[i]
  }

  lemma {:induction false} SplitSingle(t: string, sep: char)
    requires sep !in t
    ensures Split(t, sep) == [t]
    decreases |t|
  {
    if t != [] {
      SplitSingle(t[1..], sep);
      assert [t[0]] + t[1..] == t;
    }
  }

  /** Splitting at the first separator peels off the first token. */
  lemma {:induction false} SplitCons(t: string, sep: char, rest: string)
    requires sep !in t
    ensures Split(t + [sep] + rest, sep) == [t] + Split(rest, sep)
    decreases |t|
  {
    var s := t + [sep] + rest;
    if t == [] {
      assert s[1..] == rest;
    } else {
      assert s[1..] == t[1..] + [sep] + rest;
      SplitCons(t[1..], sep, rest);
      assert [t[0]] + t[1..] == t;
    }
  }

  /** Split inverts Join on separator-free, non-empty token lists. */
  lemma {:induction false} SplitJoin(ts: seq<string>, sep: char)
    requires |ts| >= 1
    requires SeparatorFree(ts, sep)
    ensures Split(Join(ts, sep), sep) == ts
    decreases |ts|
  {
    if |ts| == 1 {
      SplitSingle(ts[0], sep);
    } else {
      SplitJoin(ts[1..], sep);
      SplitCons(ts[0], sep, Join(ts[1..], sep));
      assert [ts[0]] + ts[1..] == ts;
    }
  }

  /** The number of pieces is one more than the number of separators. */
  lemma {:induction false} SplitLength(s: string, sep: char)
    ensures |Split(s, sep)| == Count(s, sep) + 1
    decreases |s|
  {
    if s != [] {
      SplitLength(s[1..], sep);
    }
  }

  /** The first piece is the text before the first separator. */
  lemma {:induction false} SplitHead(s: string, sep: char)
    ensures Split(s, sep)[0] == s[..IndexOf(s, sep)]
    decreases |s|
  {
    if s != [] && s[0] != sep {
      SplitHead(s[1..], sep);
      assert s[..IndexOf(s, sep)] == [s[0]] + s[1..][..IndexOf(s[1..], sep)];
    }
  }

  /** A character that is neither the separator nor in any token is not in the joined text. */
  lemma {:induction false} NotInJoin(ts: seq<string>, sep: char, c: char)
    requires c != sep
    requires forall i :: 0 <= i < |ts| ==> c !in ts[i]
    ensures c !in Join(ts, sep)
    decreases |ts|
  {
    if |ts| > 1 {
      NotInJoin(ts[1..], sep, c);
    }
  }

  /** Every character of a token appears in the joined text. */
  lemma {:induction false} InJoin(ts: seq<string>, sep: char, i: nat, c: char)
    requires i < |ts| && c in ts[i]
    ensures c in Join(ts, sep)
    decreases |ts|
  {
    if i > 0 {
      InJoin(ts[1..], sep, i - 1, c);
    }
  }

  /** Joining a non-empty list after a leading token puts one separator after that token. */
  lemma JoinCons(t: string, ts: seq<string>, sep: char)
    requires |ts| >= 1
    ensures Join([t] + ts, sep) == t + [sep] + Join(ts, sep)
  {
    assert ([t] + ts)[1..] == ts;
  }

  // ---------------------------------------------------------------------
  // BufRead::lines
  // ---------------------------------------------------------------------

  /** Drops one trailing carriage return. */
  function StripCr(line: string): string
  {
    if |line| > 0 && line[|line| - 1] == '\r' then line[..|line| - 1] else line
  }

  /**
   * `BufReader::lines`: the text cut at every line feed; a line that ended
   * with "\r\n" loses the carriage return too; an unterminated last line is
   * kept as it is, and text ending in a line feed yields no final empty line.
   */
  function Lines(text: string): seq<string>
    decreases |text|
  {
    if text == [] then []
    else
      var i := IndexOf(text, '\n');
      if i == |text| then [text]
      else [StripCr(text[..i])] + Lines(text[i + 1..])
  }

  /** The text of a sequence of lines as a writer produces it: each line followed by a line feed. */
  function Unlines(ls: seq<string>): string
  {
    if ls == [] then [] else ls[0] + "\n" + Unlines(ls[1..])
  }

  /** A line that `BufRead::lines` hands back unchanged once it is terminated. */
  predicate PlainLine(line: string)
  {
    '\n' !in line && (|line| == 0 || line[|line| - 1] != '\r')
  }

  lemma {:induction false} LinesCons(line: string, rest: string)
    requires '\n' !in line
    ensures Lines(line + "\n" + rest) == [StripCr(line)] + Lines(rest)
  {
    var text := line + "\n" + rest;
    var i := IndexOf(text, '\n');
    assert text[|line|] == '\n';
    if i > |line| {
      IndexOfFirst(text, '\n', |line|);
    }
    assert text[..i] == line;
    assert text[i + 1..] == rest;
  }

  lemma UnlinesCons(head: string, ls: seq<string>, rest: string)
    ensures Unlines([head] + ls) + rest == head + "\n" + (Unlines(ls) + rest)
  {
    assert ([head] + ls)[1..] == ls;
  }

  /** Lines reads back what Unlines wrote, followed by whatever comes after it. */
  lemma {:induction false} LinesUnlines(ls: seq<string>, rest: string)
    requires forall l <- ls :: PlainLine(l)
    ensures Lines(Unlines(ls) + rest) == ls + Lines(rest)
    decreases |ls|
  {
    if ls != [] {
      var head, tail := ls[0], ls[1..];
      assert ls == [head] + tail;
      assert PlainLine(head);
      LinesUnlines(tail, rest);
      LinesUnlinesStep(head, tail, rest);
    } else {
      assert Unlines(ls) + rest == rest;
    }
  }

  lemma LinesUnlinesStep(head: string, ls: seq<string>, rest: string)
    requires PlainLine(head)
    requires Lines(Unlines(ls) + rest) == ls + Lines(rest)
    ensures Lines(Unlines([head] + ls) + rest) == [head] + ls + Lines(rest)
  {
    var tail := Unlines(ls) + rest;
    var text := Unlines([head] + ls) + rest;
    UnlinesCons(head, ls, rest);
    assert text == head + "\n" + tail;
    LinesCons(head, tail);
    assert Lines(text) == [head] + Lines(tail);
    assert [head] + (ls + Lines(rest)) == [head] + ls + Lines(rest);
  }

  // ---------------------------------------------------------------------
  // str::contains
  // ---------------------------------------------------------------------

  /** `pat` occurs in `s` starting at position `i`. */
  predicate OccursAt(s: string, pat: string, i: int)
  {
    0 <= i && i + |pat| <= |s| && s[i..i + |pat|] == pat
  }

  /** `s.contains(pat)`, searched from the left. */
  function Contains(s: string, pat: string): (b: bool)
    ensures b <==> exists i :: OccursAt(s, pat, i)
    decreases |s|
  {
    if |pat| <= |s| && s[..|pat|] == pat then
      assert OccursAt(s, pat, 0);
      true
    else if s == [] then
      assert forall i :: !OccursAt(s, pat, i);
      false
    else
      var b := Contains(s[1..], pat);
      if b then
        var i :| OccursAt(s[1..], pat, i);
        assert s[i + 1..i + 1 + |pat|] == s[1..][i..i + |pat|];
        assert OccursAt(s, pat, i + 1);
        b
      else
        forall i | OccursAt(s, pat, i) ensures false {
          assert i != 0;
          assert s[1..][i - 1..i - 1 + |pat|] == s[i..i + |pat|];
          assert OccursAt(s[1..], pat, i - 1);
        }
        b
  }

  // ---------------------------------------------------------------------
  // format!("{}", n) on a count
  // ---------------------------------------------------------------------

  function DigitChar(d: nat): (c: char)
    requires d < 10
    ensures '0' <= c <= '9'
  {
    ['0', '1', '2', '3', '4', '5', '6', '7', '8', '9'][d]
  }

  function DigitValue(c: char): (d: nat)
    requires '0' <= c <= '9'
    ensures d < 10
  {
    (c as int - '0' as int) as nat
  }

  predicate AllDigits(s: string)
  {
    forall i :: 0 <= i < |s| ==> '0' <= s[i] <= '9'
  }

  /** The decimal digits of `s` read as a number. */
  function DecimalValue(s: string): nat
    requires AllDigits(s)
  {
    if s == [] then 0 else 10 * DecimalValue(s[..|s| - 1]) + DigitValue(s[|s| - 1])
  }

  /** The shortest decimal spelling of `n`: digits only, no leading zero. */
  function Decimal(n: nat): (s: string)
    ensures |s| >= 1 && AllDigits(s)
    ensures |s| > 1 ==> s[0] != '0'
  {
    if n < 10 then [DigitChar(n)] else Decimal(n / 10) + [DigitChar(n % 10)]
  }

  /** Reading the decimal spelling back gives the number. */
  lemma {:induction false} DecimalRoundTrip(n: nat)
    ensures DecimalValue(Decimal(n)) == n
  {
    var s := Decimal(n);
    if n < 10 {
      assert DigitValue(DigitChar(n)) == n;
    } else {
      DecimalRoundTrip(n / 10);
      assert s[..|s| - 1] == Decimal(n / 10);
      assert DigitValue(DigitChar(n % 10)) == n % 10;
    }
  }
}
