/** Splitting a /proc/<pid>/stat line with the pattern "([0-9]+) \((.*)\) (.*)". */
module StatLine {
  import opened Wrappers
  import opened Keys

  datatype Fields = Fields(pid: string, comm: string, rest: string)

  /** What the kernel writes. */
  function StatText(pid: nat, comm: string, rest: string): string {
    Decimal(pid) + " (" + comm + ") " + rest
  }

  predicate CloseAt(s: string, k: int) {
    0 <= k && k + 1 < |s| && s[k] == ')' && s[k + 1] == ' '
  }

  ghost predicate HasClose(s: string) {
    exists k :: CloseAt(s, k)
  }

  /** The position of the last ") " of s, or -1: where the greedy (.*) before it stops. */
  function LastClose(s: string): (j: int)
    ensures j == -1 || CloseAt(s, j)
    ensures forall k :: CloseAt(s, k) ==> k <= j
  {
    if |s| < 2 then -1
    else if CloseAt(s, |s| - 2) then |s| - 2
    else
      assert forall k :: CloseAt(s, k) ==> k != |s| - 2 && CloseAt(s[..|s| - 1], k);
      LastClose(s[..|s| - 1])
  }

  /** A match that begins at the first character. */
  function MatchHere(s: string): Option<Fields> {
    var n := LeadingDigits(s);
    if n == 0 || |s| < n + 2 || s[n] != ' ' || s[n + 1] != '(' then None
    else
      var body := s[n + 2..];
      var j := LastClose(body);
      if j < 0 then None else Some(Fields(s[..n], body[..j], body[j + 2..]))
  }

  /** The leftmost match; lines come from a line scanner, so they hold no newline. */
  function FindMatch(line: string): Option<Fields>
    requires '\n' !in line
  {
    if line == [] then None
    else
      var m := MatchHere(line);
      if m.Some? then m else FindMatch(line[1..])
  }

  lemma LastCloseOf(comm: string, rest: string)
    ensures LastClose(comm + ") " + rest) >= |comm|
    ensures LastClose(comm + ") " + rest) == |comm| <==> !HasClose(rest)
  {
    var s := comm + ") " + rest;
    var n := |comm| + 2;
    assert CloseAt(s, |comm|);
    assert s[n..] == rest;
    var j := LastClose(s);
    if j > |comm| {
      assert CloseAt(rest, j - n);
    }
    if HasClose(rest) {
      var k :| CloseAt(rest, k);
      assert CloseAt(s, n + k);
    }
  }

  // The line gives back exactly the pid, command and remainder it was printed from, whatever
  // parentheses, spaces and digits the command holds, if and only if the remainder has no ") ".
  lemma SplitRecovers(pid: nat, comm: string, rest: string)
    requires '\n' !in StatText(pid, comm, rest)
    ensures FindMatch(StatText(pid, comm, rest)) == Some(Fields(Decimal(pid), comm, rest)) <==> !HasClose(rest)
  {
    var body := comm + ") " + rest;
    DecimalIsDigits(pid);
    assert StatText(pid, comm, rest) == Decimal(pid) + (" (" + body);
    LastCloseOf(comm, rest);
    MatchOf(StatText(pid, comm, rest), Decimal(pid), body);
    BodyParts(comm, rest, LastClose(body));
  }

  lemma BodyParts(comm: string, rest: string, j: nat)
    requires j + 2 <= |comm + ") " + rest|
    ensures var body := comm + ") " + rest;
            body[..j] == comm && body[j + 2..] == rest <==> j == |comm|
  {
    var body := comm + ") " + rest;
    assert |body[..j]| == j;
    assert body[..|comm|] == comm && body[|comm| + 2..] == rest;
  }

  lemma MatchOf(line: string, digits: string, body: string)
    requires line == digits + (" (" + body) && digits != []
    requires forall i :: 0 <= i < |digits| ==> IsDigit(digits[i])
    requires '\n' !in line && LastClose(body) >= 0
    ensures var j := LastClose(body);
            FindMatch(line) == Some(Fields(digits, body[..j], body[j + 2..]))
  {
    LeadingDigitsOf(digits, " (" + body);
    assert line[..|digits|] == digits && line[|digits| + 2..] == body;
    assert MatchHere(line).Some?;
  }
}
