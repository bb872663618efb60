/**
 * The string operations the signature renderer builds on: `join` over a list
 * of strings and `str::lines`, with the inverse each one has.
 */
module Text {

  /** Position of the first `c` in `s`. */
  function IndexOf(s: string, c: char): (i: nat)
    requires c in s
    ensures i < |s| && s[i] == c && c !in s[..i]
  {
    if s[0] == c then 0 else 1 + IndexOf(s[1..], c)
  }

  /** `join(sep)`: the elements in order, with `sep` between consecutive ones. */
  function Join(xs: seq<string>, sep: string): string {
    if xs == [] then ""
    else if |xs| == 1 then xs[0]
    else xs[0] + sep + Join(xs[1..], sep)
  }

  /** A join starts with the first element. */
  lemma JoinHead(xs: seq<string>, sep: string)
    requires xs != []
    ensures xs[0] <= Join(xs, sep)
  {
  }

  /** Joining two non-empty lists puts exactly one separator between their joins. */
  /** Two elements join around one separator. */
  lemma JoinPair(a: string, b: string, sep: string)
    ensures Join([a, b], sep) == a + sep + b
  {
    assert [a, b][1..] == [b];
  }

  lemma {:induction false} JoinAppend(a: seq<string>, b: seq<string>, sep: string)
    requires a != [] && b != []
    ensures Join(a + b, sep) == Join(a, sep) + sep + Join(b, sep)
  {
    if |a| > 1 {
      assert (a + b)[1..] == a[1..] + b;
      JoinAppend(a[1..], b, sep);
    } else {
      assert (a + b)[1..] == b;
    }
  }

  /** Splits `s` at every `c`; the inverse of joining with `c`. */
  function Split(s: string, c: char): (parts: seq<string>)
    ensures |parts| >= 1
    ensures forall k :: 0 <= k < |parts| ==> c !in parts[k]
    decreases |s|
  {
    if c !in s then [s]
    else
      var i := IndexOf(s, c);
      [s[..i]] + Split(s[i + 1..], c)
  }

  /** Joining with one character and splitting at it gives the list back. */
  lemma {:induction false} SplitJoin(xs: seq<string>, c: char)
    requires xs != []
    requires forall k :: 0 <= k < |xs| ==> c !in xs[k]
    ensures Split(Join(xs, [c]), c) == xs
  {
    if |xs| > 1 {
      var s := Join(xs, [c]);
      var rest := Join(xs[1..], [c]);
      assert s == xs[0] + [c] + rest;
      assert s[|xs[0]|] == c;
      assert s[..|xs[0]|] == xs[0];
      assert IndexOf(s, c) == |xs[0]|;
      assert s[|xs[0]| + 1..] == rest;
      SplitJoin(xs[1..], c);
    }
  }

  /** Splitting at a character and joining with it gives the string back. */
  lemma {:induction false} JoinSplit(s: string, c: char)
    ensures Join(Split(s, c), [c]) == s
    decreases |s|
  {
    if c in s {
      var i := IndexOf(s, c);
      JoinSplit(s[i + 1..], c);
      assert Split(s, c)[1..] == Split(s[i + 1..], c);
      assert s == s[..i] + [c] + s[i + 1..];
    }
  }

  /**
   * `str::lines`: the lines of `s`, split at "\n" or at "\r\n", without their
   * terminators; a final terminator is optional and an empty string has no
   * lines.
   */
  function Lines(s: string): (ls: seq<string>)
    ensures forall k :: 0 <= k < |ls| ==> '\n' !in ls[k]
    decreases |s|
  {
    if s == [] then []
    else if '\n' !in s then [s]
    else
      var i := IndexOf(s, '\n');
      var line := if i > 0 && s[i - 1] == '\r' then s[..i - 1] else s[..i];
      [line] + Lines(s[i + 1..])
  }

  /** A character absent from the text is absent from each of its lines. */
  lemma {:induction false} LinesOmit(s: string, c: char)
    requires c !in s
    ensures forall k :: 0 <= k < |Lines(s)| ==> c !in Lines(s)[k]
    decreases |s|
  {
    if s != [] && '\n' in s {
      var i := IndexOf(s, '\n');
      var rest := s[i + 1..];
      assert c !in rest by {
        forall k | 0 <= k < |rest| ensures rest[k] != c {
          assert rest[k] == s[i + 1 + k];
        }
      }
      LinesOmit(rest, c);
      var ls := Lines(s);
      assert ls[1..] == Lines(rest);
      forall j | 0 <= j < |ls[0]| ensures ls[0][j] != c {
        assert ls[0][j] == s[j];
      }
      assert forall k :: 1 <= k < |ls| ==> ls[k] == Lines(rest)[k - 1];
    }
  }

  /** Each line followed by "\n", concatenated. */
  function Terminated(ls: seq<string>): (r: string)
    ensures r == [] <==> ls == []
    ensures ls != [] ==> EndsWith(r, '\n')
  {
    if ls == [] then "" else ls[0] + "\n" + Terminated(ls[1..])
  }

  predicate EndsWith(s: string, c: char) {
    s != [] && s[|s| - 1] == c
  }

  /** Without carriage returns, the first line of text holding a line feed is everything before it. */
  lemma LinesStep(s: string)
    requires '\r' !in s && '\n' in s
    ensures var i := IndexOf(s, '\n');
            '\r' !in s[i + 1..] && Lines(s) == [s[..i]] + Lines(s[i + 1..])
  {
    var i := IndexOf(s, '\n');
    if i > 0 {
      assert s[i - 1] in s;
    }
    var rest := s[i + 1..];
    forall k | 0 <= k < |rest| ensures rest[k] != '\r' {
      assert rest[k] == s[i + 1 + k];
    }
  }

  /**
   * A line feed-terminated head followed by text whose lines terminate to
   * `tr`: the whole terminates to the head followed by `tr`.
   */
  lemma AppendTerminated(s: string, head: string, rest: string, tr: string)
    requires EndsWith(head, '\n') && s == head + rest
    requires tr == if rest == [] || EndsWith(rest, '\n') then rest else rest + "\n"
    ensures head + tr == if s == [] || EndsWith(s, '\n') then s else s + "\n"
  {
    if rest != [] {
      assert s[|s| - 1] == rest[|rest| - 1];
      assert head + (rest + "\n") == s + "\n";
    }
  }

  /** A string is what comes before position `i`, the character there, and what follows. */
  lemma SplitAround(s: string, i: nat)
    requires i < |s|
    ensures s == s[..i] + [s[i]] + s[i + 1..]
  {
  }

  lemma TerminatedCons(l: string, ls: seq<string>)
    ensures Terminated([l] + ls) == l + "\n" + Terminated(ls)
  {
    assert ([l] + ls)[1..] == ls;
  }

  /** Text without carriage returns is its lines, each terminated, up to a missing final "\n". */
  lemma {:induction false} TerminatedLines(s: string)
    requires '\r' !in s
    ensures Terminated(Lines(s)) == if s == [] || EndsWith(s, '\n') then s else s + "\n"
    decreases |s|
  {
    if s != [] && '\n' in s {
      var i := IndexOf(s, '\n');
      var rest := s[i + 1..];
      var head := s[..i] + "\n";
      LinesStep(s);
      TerminatedLines(rest);
      TerminatedCons(s[..i], Lines(rest));
      SplitAround(s, i);
      AppendTerminated(s, head, rest, Terminated(Lines(rest)));
    } else if s != [] {
      assert s[|s| - 1] in s;
      assert Lines(s) == [s];
      assert Terminated([s]) == s + "\n" + Terminated([]);
    }
  }

  /** Lines that hold no line terminator and do not end in '\r' survive terminating and re-splitting. */
  lemma {:induction false} LinesTerminated(ls: seq<string>)
    requires forall k :: 0 <= k < |ls| ==> '\n' !in ls[k] && !EndsWith(ls[k], '\r')
    ensures Lines(Terminated(ls)) == ls
  {
    if ls != [] {
      var s := Terminated(ls);
      var l := ls[0];
      var rest := Terminated(ls[1..]);
      assert s == l + "\n" + rest;
      assert s[|l|] == '\n';
      assert s[..|l|] == l;
      assert IndexOf(s, '\n') == |l|;
      assert s[|l| + 1..] == rest;
      LinesTerminated(ls[1..]);
    }
  }
}
