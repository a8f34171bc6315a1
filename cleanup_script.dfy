/**
 * The interactive endpoint cleanup script: reading endpoint rows from the
 * table that `gcloud ai endpoints list` prints, choosing endpoints by
 * "all" or by 1-based numbers, and deleting them one by one after a
 * confirmation while counting the deletions that succeeded.
 *
 * The gcloud commands and the prompts are inputs: the listing's standard
 * output (None when the command fails), the three answers typed at the
 * prompts, and what each delete command did, by attempt number.
 */
module CleanupScript {
  import opened Wrappers
  import opened Text

  datatype ListedEndpoint = ListedEndpoint(id: string, displayName: string)

  // ---------------------------------------------------------------------
  // `line.split(/\s+/)`

  /** The index of the first whitespace character, or |s|. */
  function FirstSpace(s: string): (k: nat)
    ensures k <= |s|
    ensures forall i :: 0 <= i < k ==> !IsJsSpace(s[i])
    ensures k < |s| ==> IsJsSpace(s[k])
  {
    if s == [] then 0 else if IsJsSpace(s[0]) then 0 else 1 + FirstSpace(s[1..])
  }

  /** The length of the run of whitespace s starts with. */
  function SpaceRun(s: string): (k: nat)
    ensures k <= |s|
    ensures forall i :: 0 <= i < k ==> IsJsSpace(s[i])
    ensures k < |s| ==> !IsJsSpace(s[k])
  {
    if s == [] then 0 else if !IsJsSpace(s[0]) then 0 else 1 + SpaceRun(s[1..])
  }

  /** JavaScript's split on the pattern `\s+`: every maximal run of
      whitespace separates two pieces, so leading or trailing whitespace
      gives an empty first or last piece. */
  function SplitWs(s: string): (parts: seq<string>)
    ensures |parts| >= 1
    ensures forall k :: 0 <= k < |parts| ==> forall i :: 0 <= i < |parts[k]| ==> !IsJsSpace(parts[k][i])
    decreases |s|
  {
    var i := FirstSpace(s);
    if i == |s| then [s]
    else
      var j := i + SpaceRun(s[i..]);
      [s[..i]] + SplitWs(s[j..])
  }

  /** A line splits into at least two pieces iff it holds whitespace. */
  lemma SplitWsCount(s: string)
    ensures |SplitWs(s)| >= 2 <==> exists k :: 0 <= k < |s| && IsJsSpace(s[k])
  {
    var i := FirstSpace(s);
    if i < |s| {
      assert IsJsSpace(s[i]);
    }
  }

  /** The first piece is everything before the first whitespace. */
  lemma SplitWsFirst(s: string)
    ensures SplitWs(s)[0] == s[..FirstSpace(s)]
  {
    if FirstSpace(s) == |s| {
      assert s[..|s|] == s;
    }
  }

  /** Past the first piece and the run of whitespace after it, splitting
      starts over. */
  lemma SplitWsStep(s: string, i: nat, j: nat)
    requires i == FirstSpace(s) < |s| && j == i + SpaceRun(s[i..])
    ensures SplitWs(s) == [s[..i]] + SplitWs(s[j..])
  {
  }

  /** The second piece runs from the end of the first run of whitespace to
      the next whitespace. */
  lemma SplitWsSecond(s: string, i: nat, j: nat)
    requires i == FirstSpace(s) < |s| && j == i + SpaceRun(s[i..])
    ensures SplitWs(s)[1] == s[j..][..FirstSpace(s[j..])]
  {
    SplitWsStep(s, i, j);
    SplitWsFirst(s[j..]);
  }

  // ---------------------------------------------------------------------
  // Rows of the listing.

  /** `line.trim() === ''` */
  predicate IsBlank(line: string)
  {
    forall i :: 0 <= i < |line| ==> IsJsSpace(line[i])
  }

  function NonBlank(lines: seq<string>): (r: seq<string>)
    ensures |r| <= |lines|
    ensures forall k :: 0 <= k < |r| ==> !IsBlank(r[k])
  {
    if lines == [] then []
    else if IsBlank(lines[0]) then NonBlank(lines[1..])
    else [lines[0]] + NonBlank(lines[1..])
  }

  /** The endpoint a row yields: its first two pieces, when it has two. */
  function RowOf(line: string): Option<ListedEndpoint>
  {
    var parts := SplitWs(line);
    if |parts| >= 2 then Some(ListedEndpoint(parts[0], parts[1])) else None
  }

  /** The endpoints of the rows, in row order. */
  function RowsOf(lines: seq<string>): (r: seq<ListedEndpoint>)
    ensures |r| <= |lines|
  {
    if lines == [] then []
    else
      var rest := RowsOf(lines[..|lines| - 1]);
      match RowOf(lines[|lines| - 1])
      case None => rest
      case Some(e) => rest + [e]
  }

  /** The non-blank lines of the listing's output after the header. */
  function DataLines(stdout: string): seq<string>
  {
    var lines := NonBlank(SplitOn(stdout, '\n'));
    if lines == [] then [] else lines[1..]
  }

  /** The row-reading loop of `listEndpoints`, from the second non-blank
      line on; a failed listing command yields no endpoints. */
  method ListEndpoints(stdout: Option<string>) returns (endpoints: seq<ListedEndpoint>)
    ensures stdout.None? ==> endpoints == []
    ensures stdout.Some? ==> endpoints == RowsOf(DataLines(stdout.value))
  {
    if stdout.None? {
      return [];
    }
    var lines := NonBlank(SplitOn(stdout.value, '\n'));
    endpoints := [];
    if lines == [] {
      return;
    }
    for i := 1 to |lines|
      invariant endpoints == RowsOf(lines[1..i])
    {
      RowsOfSnoc(lines, i);
      var parts := SplitWs(lines[i]);
      if |parts| >= 2 {
        endpoints := endpoints + [ListedEndpoint(parts[0], parts[1])];
      }
    }
    assert DataLines(stdout.value) == lines[1..] == lines[1..|lines|];
  }

  lemma RowsOfSnoc(lines: seq<string>, i: nat)
    requires 1 <= i < |lines|
    ensures RowsOf(lines[1..i + 1]) ==
              RowsOf(lines[1..i]) + (if RowOf(lines[i]).Some? then [RowOf(lines[i]).value] else [])
  {
    assert lines[1..i + 1][..i - 1] == lines[1..i];
    assert lines[1..i + 1][i - 1] == lines[i];
  }

  /** Rows keep the order of the lines: reading distributes over a split. */
  lemma {:induction false} RowsOfAppend(a: seq<string>, b: seq<string>)
    ensures RowsOf(a + b) == RowsOf(a) + RowsOf(b)
    decreases |b|
  {
    if b == [] {
      assert a + b == a;
    } else {
      var q := b[..|b| - 1];
      assert (a + b)[..|a + b| - 1] == a + q;
      assert (a + b)[|a + b| - 1] == b[|b| - 1];
      RowsOfAppend(a, q);
    }
  }

  /** Every endpoint comes from a line holding whitespace, and is made of
      the first two pieces of that line. */
  lemma {:induction false} RowsOfSpec(lines: seq<string>)
    ensures forall e :: e in RowsOf(lines) ==>
              exists k :: 0 <= k < |lines| && RowOf(lines[k]) == Some(e)
    decreases |lines|
  {
    if lines != [] {
      var p := lines[..|lines| - 1];
      RowsOfSpec(p);
      forall e | e in RowsOf(lines) ensures exists k :: 0 <= k < |lines| && RowOf(lines[k]) == Some(e) {
        if e in RowsOf(p) {
          var k :| 0 <= k < |p| && RowOf(p[k]) == Some(e);
          assert lines[k] == p[k];
        } else {
          assert RowOf(lines[|lines| - 1]) == Some(e);
        }
      }
    }
  }

  /** A line yields an endpoint iff it holds whitespace; a blank line that
      is not empty would yield one with an empty id, which is why blank
      lines are dropped first. */
  lemma RowOfSpec(line: string)
    ensures RowOf(line).Some? <==> exists k :: 0 <= k < |line| && IsJsSpace(line[k])
    ensures RowOf(line).Some? ==> RowOf(line).value.id == line[..FirstSpace(line)]
  {
    SplitWsCount(line);
    SplitWsFirst(line);
  }

  lemma BlankRowHasEmptyId()
    ensures RowOf(" ") == Some(ListedEndpoint("", ""))
  {
    assert IsJsSpace(' ');
    assert FirstSpace(" ") == 0;
    assert SpaceRun(" ") == 1;
    assert SplitWs(" "[1..]) == [""];
  }

  /** The header is never read as an endpoint, and there is at most one
      endpoint per non-blank line after it. */
  lemma ListingBound(stdout: string)
    ensures |RowsOf(DataLines(stdout))| <= |DataLines(stdout)|
    ensures |NonBlank(SplitOn(stdout, '\n'))| >= 1 ==>
              |DataLines(stdout)| == |NonBlank(SplitOn(stdout, '\n'))| - 1
    ensures forall k :: 0 <= k < |DataLines(stdout)| ==> !IsBlank(DataLines(stdout)[k])
  {
  }

  // ---------------------------------------------------------------------
  // `parseInt(num.trim())`

  predicate IsDecimalDigit(c: char) { '0' <= c <= '9' }

  predicate IsHexDigit(c: char)
  {
    IsDecimalDigit(c) || ('a' <= c <= 'f') || ('A' <= c <= 'F')
  }

  function DigitValue(c: char): nat
    requires IsHexDigit(c)
  {
    if IsDecimalDigit(c) then c as int - '0' as int
    else if 'a' <= c <= 'f' then c as int - 'a' as int + 10
    else c as int - 'A' as int + 10
  }

  /** The length of the longest prefix of digits of the radix (10 or 16). */
  function DigitRun(s: string, hex: bool): (k: nat)
    ensures k <= |s|
    ensures forall i :: 0 <= i < k ==> (if hex then IsHexDigit(s[i]) else IsDecimalDigit(s[i]))
  {
    if s == [] then 0
    else if (if hex then IsHexDigit(s[0]) else IsDecimalDigit(s[0])) then 1 + DigitRun(s[1..], hex)
    else 0
  }

  /** The value of a string of digits in the radix. */
  function DigitsValue(s: string, hex: bool): nat
    requires forall i :: 0 <= i < |s| ==> IsHexDigit(s[i])
  {
    if s == [] then 0
    else DigitsValue(s[..|s| - 1], hex) * (if hex then 16 else 10) + DigitValue(s[|s| - 1])
  }

  /** The leading whitespace removed; `trim` also drops trailing whitespace,
      which `parseInt` stops at anyway. */
  function TrimStart(s: string): (r: string)
    ensures r == [] || !IsJsSpace(r[0])
    ensures |r| <= |s|
  {
    if s != [] && IsJsSpace(s[0]) then TrimStart(s[1..]) else s
  }

  /** `parseInt` without a radix: an optional sign, then hexadecimal after
      `0x`/`0X` or decimal otherwise, read as far as digits go; None is
      NaN, when no digit follows. */
  function ParseIntJs(s: string): Option<int>
  {
    var t := TrimStart(s);
    var negative := t != [] && t[0] == '-';
    var u := if t != [] && (t[0] == '-' || t[0] == '+') then t[1..] else t;
    match ParseUnsigned(u)
    case None => None
    case Some(v) => Some(if negative then -(v as int) else v as int)
  }

  /** The digits after the sign: hexadecimal after `0x`/`0X`, decimal
      otherwise, read as far as digits go; None when there is none. */
  function ParseUnsigned(u: string): Option<nat>
  {
    var hex := |u| >= 2 && u[0] == '0' && (u[1] == 'x' || u[1] == 'X');
    var body := if hex then u[2..] else u;
    var n := DigitRun(body, hex);
    if n == 0 then None else Some(DigitsValue(body[..n], hex))
  }

  // ---------------------------------------------------------------------
  // The selection.

  /** `parseInt` of each comma-separated token. */
  function ParseAll(tokens: seq<string>): (r: seq<Option<int>>)
    ensures |r| == |tokens| && forall k :: 0 <= k < |r| ==> r[k] == ParseIntJs(tokens[k])
  {
    if tokens == [] then [] else ParseAll(tokens[..|tokens| - 1]) + [ParseIntJs(tokens[|tokens| - 1])]
  }

  /** The 0-based positions the numbers name among n endpoints: a number
      from 1 to n names position number - 1; the others name nothing. */
  function IndexesOf(values: seq<Option<int>>, n: nat): (r: seq<nat>)
    ensures |r| <= |values|
    ensures forall k :: 0 <= k < |r| ==> r[k] < n
  {
    if values == [] then []
    else
      var rest := IndexesOf(values[..|values| - 1], n);
      match values[|values| - 1]
      case None => rest
      case Some(v) => if 1 <= v <= n then rest + [(v - 1) as nat] else rest
  }

  function AllIndexes(n: nat): (r: seq<nat>)
    ensures |r| == n && forall k :: 0 <= k < n ==> r[k] == k
  {
    if n == 0 then [] else AllIndexes(n - 1) + [n - 1]
  }

  /** The positions chosen by the answer to the selection prompt. */
  function Selection(answer: string, n: nat): (r: seq<nat>)
    ensures forall k :: 0 <= k < |r| ==> r[k] < n
  {
    if Lower(answer) == "all" then AllIndexes(n) else IndexesOf(ParseAll(SplitOn(answer, ',')), n)
  }

  function Pick(endpoints: seq<ListedEndpoint>, indexes: seq<nat>): (r: seq<ListedEndpoint>)
    requires forall k :: 0 <= k < |indexes| ==> indexes[k] < |endpoints|
    ensures |r| == |indexes| && forall k :: 0 <= k < |r| ==> r[k] == endpoints[indexes[k]]
  {
    if indexes == [] then [] else Pick(endpoints, indexes[..|indexes| - 1]) + [endpoints[indexes[|indexes| - 1]]]
  }

  /** "all" in any letter case selects every endpoint, in order. */
  lemma SelectAll(answer: string, endpoints: seq<ListedEndpoint>)
    requires Lower(answer) == "all"
    ensures Pick(endpoints, Selection(answer, |endpoints|)) == endpoints
  {
  }

  /** Any other answer: the chosen positions follow the tokens in order,
      repeats included, and a token adds a position iff it reads as a
      number from 1 to n. */
  lemma {:induction false} IndexesOfAppend(a: seq<Option<int>>, b: seq<Option<int>>, n: nat)
    ensures IndexesOf(a + b, n) == IndexesOf(a, n) + IndexesOf(b, n)
    decreases |b|
  {
    if b == [] {
      assert a + b == a;
    } else {
      var q := b[..|b| - 1];
      assert (a + b)[..|a + b| - 1] == a + q;
      assert (a + b)[|a + b| - 1] == b[|b| - 1];
      IndexesOfAppend(a, q, n);
    }
  }

  /** A position is chosen iff it is below n and some token reads as that
      position plus one. */
  lemma {:induction false} IndexesOfMembers(vs: seq<Option<int>>, n: nat)
    ensures forall x: nat :: x in IndexesOf(vs, n) <==> x < n && Some(x + 1) in vs
    decreases |vs|
  {
    if vs != [] {
      var p := vs[..|vs| - 1];
      IndexesOfMembers(p, n);
      assert vs == p + [vs[|vs| - 1]];
    }
  }

  lemma IndexesOfOne(v: Option<int>, n: nat)
    ensures IndexesOf([v], n) == if v.Some? && 1 <= v.value <= n then [(v.value - 1) as nat] else []
  {
    assert [v][..0] == [];
  }

  /** A plain decimal numeral reads as its value. */
  lemma ParseIntOfNumeral(s: string)
    requires s != [] && forall i :: 0 <= i < |s| ==> IsDecimalDigit(s[i])
    ensures ParseIntJs(s) == Some(DigitsValue(s, false) as int)
  {
    assert IsDecimalDigit(s[0]);
    UnsignedOfNumeral(s);
    ParseIntUnsigned(s);
  }

  lemma ParseIntUnsigned(s: string)
    requires s != [] && !IsJsSpace(s[0]) && s[0] != '-' && s[0] != '+'
    ensures ParseIntJs(s) == if ParseUnsigned(s).None? then None else Some(ParseUnsigned(s).value as int)
  {
    assert TrimStart(s) == s;
  }

  lemma UnsignedOfNumeral(s: string)
    requires s != [] && forall i :: 0 <= i < |s| ==> IsDecimalDigit(s[i])
    ensures ParseUnsigned(s) == Some(DigitsValue(s, false))
  {
    assert !(|s| >= 2 && s[0] == '0' && (s[1] == 'x' || s[1] == 'X')) by {
      if |s| >= 2 { assert IsDecimalDigit(s[1]); }
    }
    DigitRunAll(s);
    assert s[..|s|] == s;
  }

  lemma {:induction false} DigitRunAll(s: string)
    requires forall i :: 0 <= i < |s| ==> IsDecimalDigit(s[i])
    ensures DigitRun(s, false) == |s|
  {
    if s != [] {
      DigitRunAll(s[1..]);
    }
  }

  /** Examples of `parseInt`: leading whitespace and trailing junk are
      ignored, `0x` switches to hexadecimal, a sign is kept, and no digit
      gives NaN. */
  lemma ParseIntDecimal()
    ensures ParseIntJs(" 12x") == Some(12)
  {
    var t := TrimStart(" 12x");
    assert t == "12x" by { assert " 12x"[1..] == "12x"; }
    assert DigitRun("12x", false) == 2 by {
      assert "12x"[1..] == "2x" && "2x"[1..] == "x";
    }
    assert "12x"[..2] == "12" && "12"[..1] == "1" && "1"[..0] == [];
  }

  lemma ParseIntHex()
    ensures ParseIntJs("0x1A") == Some(26)
  {
    assert TrimStart("0x1A") == "0x1A";
    assert "0x1A"[2..] == "1A";
    assert DigitRun("1A", true) == 2 by {
      assert "1A"[1..] == "A" && "A"[1..] == [];
    }
    assert "1A"[..2] == "1A" && "1A"[..1] == "1" && "1"[..0] == [];
  }

  lemma ParseIntNegative()
    ensures ParseIntJs("-1") == Some(-1)
  {
    assert TrimStart("-1") == "-1";
    assert "-1"[1..] == "1";
    assert DigitRun("1", false) == 1;
    assert "1"[..1] == "1" && "1"[..0] == [];
  }

  lemma ParseIntNaN()
    ensures ParseIntJs("abc") == None
  {
    assert TrimStart("abc") == "abc";
  }

  /** Examples of selections: "2,2" picks the second endpoint twice, and
      "1,3,5" among three picks the first and the third. */
  lemma RepeatedTokenKept()
    ensures IndexesOf([Some(2), Some(2)], 3) == [1, 1]
  {
    IndexesOfOne(Some(2), 3);
    IndexesOfAppend([Some(2)], [Some(2)], 3);
    assert [Some(2)] + [Some(2)] == [Some(2), Some(2)];
  }

  lemma OutOfRangeDropped()
    ensures IndexesOf([Some(1), Some(3), Some(5), None, Some(0)], 3) == [0, 2]
  {
    var vs := [Some(1), Some(3), Some(5), None, Some(0)];
    IndexesOfPrefix(vs, 0, 3);
    IndexesOfPrefix(vs, 1, 3);
    IndexesOfPrefix(vs, 2, 3);
    IndexesOfPrefix(vs, 3, 3);
    IndexesOfPrefix(vs, 4, 3);
    assert vs[..0] == [] && vs[..5] == vs;
  }

  lemma IndexesOfPrefix(vs: seq<Option<int>>, k: nat, n: nat)
    requires k < |vs|
    ensures IndexesOf(vs[..k + 1], n) ==
              IndexesOf(vs[..k], n) + (if vs[k].Some? && 1 <= vs[k].value <= n then [(vs[k].value - 1) as nat] else [])
  {
    assert vs[..k + 1][..k] == vs[..k];
  }

  // ---------------------------------------------------------------------
  // Deleting.

  /** What one `gcloud ai endpoints delete` did: it threw, or it finished
      with some text on standard error. */
  datatype DeleteRun = Threw | Finished(stderr: string)

  /** `deleteEndpoint`: a throw fails; text on standard error fails unless
      it mentions `Deleted`. */
  predicate DeleteSucceeded(run: DeleteRun)
  {
    run.Finished? && (run.stderr == [] || Contains(run.stderr, "Deleted"))
  }

  /** The number of successful attempts among the first n. */
  function Successes(n: nat, runs: nat -> DeleteRun): (c: nat)
    ensures c <= n
  {
    if n == 0 then 0 else Successes(n - 1, runs) + (if DeleteSucceeded(runs(n - 1)) then 1 else 0)
  }

  /** The deletion loop: one delete command per target, in order; attempt
      k did what `runs(k)` says. */
  method DeleteEach(targets: seq<ListedEndpoint>, runs: nat -> DeleteRun)
    returns (attempted: seq<string>, successCount: nat)
    ensures |attempted| == |targets| && forall k :: 0 <= k < |targets| ==> attempted[k] == targets[k].id
    ensures successCount == Successes(|targets|, runs)
    ensures successCount <= |targets|
  {
    attempted := [];
    successCount := 0;
    for k := 0 to |targets|
      invariant |attempted| == k && forall j :: 0 <= j < k ==> attempted[j] == targets[j].id
      invariant successCount == Successes(k, runs)
    {
      attempted := attempted + [targets[k].id];
      if DeleteSucceeded(runs(k)) {
        successCount := successCount + 1;
      }
    }
  }

  /** Every attempt succeeds exactly when the count reaches the number of
      attempts. */
  lemma {:induction false} AllSucceeded(n: nat, runs: nat -> DeleteRun)
    ensures Successes(n, runs) == n <==> forall k :: 0 <= k < n ==> DeleteSucceeded(runs(k))
  {
    if n > 0 {
      AllSucceeded(n - 1, runs);
    }
  }

  // ---------------------------------------------------------------------
  // `main`

  datatype CleanupOutcome =
    | NoEndpoints
    | InvalidOption
    | Exited
    | NoValidSelection
    | Cancelled
    | Deleted(attempted: seq<string>, successCount: nat)

  predicate Confirmed(answer: string)
  {
    Lower(answer) == "y"
  }

  function Ids(endpoints: seq<ListedEndpoint>): (r: seq<string>)
    ensures |r| == |endpoints| && forall k :: 0 <= k < |r| ==> r[k] == endpoints[k].id
  {
    if endpoints == [] then [] else Ids(endpoints[..|endpoints| - 1]) + [endpoints[|endpoints| - 1].id]
  }

  /** The endpoints `main` works on: none when the listing command failed. */
  function Listed(stdout: Option<string>): seq<ListedEndpoint>
  {
    if stdout.None? then [] else RowsOf(DataLines(stdout.value))
  }

  /** The outcome of `main` on the listed endpoints, the three answers and
      what each delete command did. */
  function Cleanup(endpoints: seq<ListedEndpoint>, action: string, selection: string,
                   confirmation: string, runs: nat -> DeleteRun): CleanupOutcome
  {
    if endpoints == [] then NoEndpoints
    else if action == "1" then
      if Confirmed(confirmation) then Deleted(Ids(endpoints), Successes(|endpoints|, runs)) else Cancelled
    else if action == "2" then
      var chosen := Pick(endpoints, Selection(selection, |endpoints|));
      if chosen == [] then NoValidSelection
      else if Confirmed(confirmation) then Deleted(Ids(chosen), Successes(|chosen|, runs))
      else Cancelled
    else if action == "3" then Exited
    else InvalidOption
  }

  /** What `main` promises: nothing is deleted without a listing, a valid
      option and a "y"; option 1 deletes every endpoint in listing order;
      option 2 deletes exactly the chosen ones; the count never exceeds the
      attempts and reaches them iff every delete succeeded. */
  lemma CleanupSpec(endpoints: seq<ListedEndpoint>, action: string, selection: string,
                    confirmation: string, runs: nat -> DeleteRun)
    ensures var outcome := Cleanup(endpoints, action, selection, confirmation, runs);
      && (endpoints == [] <==> outcome == NoEndpoints)
      && (outcome.Deleted? ==> Confirmed(confirmation) && (action == "1" || action == "2"))
      && (endpoints != [] && action == "1" && Confirmed(confirmation) ==>
            outcome.Deleted? && outcome.attempted == Ids(endpoints))
      && (endpoints != [] && action == "2" ==>
            var chosen := Pick(endpoints, Selection(selection, |endpoints|));
            && (chosen == [] <==> outcome == NoValidSelection)
            && (chosen != [] && Confirmed(confirmation) ==> outcome.Deleted? && outcome.attempted == Ids(chosen)))
      && (endpoints != [] && action != "1" && action != "2" && action != "3" ==> outcome == InvalidOption)
      && (outcome.Deleted? ==>
            && outcome.successCount <= |outcome.attempted|
            && (outcome.successCount == |outcome.attempted| <==>
                  forall k :: 0 <= k < |outcome.attempted| ==> DeleteSucceeded(runs(k))))
  {
    var outcome := Cleanup(endpoints, action, selection, confirmation, runs);
    if outcome.Deleted? {
      AllSucceeded(|outcome.attempted|, runs);
    }
  }

  /** `main`: list, ask, select, confirm, delete. */
  method RunMain(stdout: Option<string>, action: string, selection: string, confirmation: string,
                 runs: nat -> DeleteRun)
    returns (outcome: CleanupOutcome)
    ensures outcome == Cleanup(Listed(stdout), action, selection, confirmation, runs)
  {
    var endpoints := ListEndpoints(stdout);
    if |endpoints| == 0 {
      return NoEndpoints;
    }
    if action == "1" {
      if Confirmed(confirmation) {
        var attempted, count := DeleteEach(endpoints, runs);
        assert attempted == Ids(endpoints);
        return Deleted(attempted, count);
      }
      return Cancelled;
    } else if action == "2" {
      var chosen := Pick(endpoints, Selection(selection, |endpoints|));
      if |chosen| == 0 {
        return NoValidSelection;
      }
      if Confirmed(confirmation) {
        var attempted, count := DeleteEach(chosen, runs);
        assert attempted == Ids(chosen);
        return Deleted(attempted, count);
      }
      return Cancelled;
    } else if action == "3" {
      return Exited;
    }
    return InvalidOption;
  }
}
