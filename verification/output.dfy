/**
 * What `main` writes to chat.csv (htmlToCsv.py lines 75-77): every collected message
 * followed by a newline, in order. `SplitLines` reads such text back line by line.
 */
module Output {
  import opened Wrappers
  import Driver

  /** The text written to the output file. */
  function Render(msgs: seq<string>): string {
    if msgs == [] then "" else msgs[0] + "\n" + Render(msgs[1..])
  }

  /** The index of the first newline of `s`, or `|s|` when there is none. */
  function NewlineIndex(s: string): (k: nat)
    ensures k <= |s|
    ensures '\n' !in s[..k]
    ensures k < |s| ==> s[k] == '\n'
  {
    if s == [] then 0
    else if s[0] == '\n' then 0
    else
      var k := 1 + NewlineIndex(s[1..]);
      assert s[..k] == [s[0]] + s[1..][..k - 1];
      k
  }

  /** A newline at `k` with none before it is the first newline. */
  lemma {:induction false} NewlineIndexAt(s: string, k: nat)
    requires k < |s| && s[k] == '\n' && '\n' !in s[..k]
    ensures NewlineIndex(s) == k
  {
    if k > 0 {
      assert s[0] == s[..k][0];
      assert s[1..][..k - 1] == s[..k][1..];
      NewlineIndexAt(s[1..], k - 1);
    }
  }

  /** The lines of `s`, each without its newline; a last line without one is kept. */
  function SplitLines(s: string): seq<string>
    decreases |s|
  {
    if s == "" then []
    else
      var k := NewlineIndex(s);
      if k == |s| then [s] else [s[..k]] + SplitLines(s[k + 1..])
  }

  /** The output is as long as the messages plus one newline each. */
  lemma {:induction false} RenderLength(msgs: seq<string>)
    ensures |Render(msgs)| == |msgs| + TotalLength(msgs)
  {
    if msgs != [] {
      RenderLength(msgs[1..]);
    }
  }

  /** The summed lengths of the messages. */
  function TotalLength(msgs: seq<string>): nat {
    if msgs == [] then 0 else |msgs[0]| + TotalLength(msgs[1..])
  }

  /** Writing two runs of messages one after the other writes their texts one after the other. */
  lemma {:induction false} RenderAppend(a: seq<string>, b: seq<string>)
    ensures Render(a + b) == Render(a) + Render(b)
  {
    if a == [] {
      assert a + b == b;
    } else {
      assert (a + b)[1..] == a[1..] + b;
      RenderAppend(a[1..], b);
    }
  }

  /** Reading the output back line by line gives every message, in order, when none holds a newline. */
  lemma {:induction false} SplitRender(msgs: seq<string>)
    requires forall m :: m in msgs ==> '\n' !in m
    ensures SplitLines(Render(msgs)) == msgs
  {
    if msgs != [] {
      var s := Render(msgs);
      var m := msgs[0];
      assert s == m + "\n" + Render(msgs[1..]);
      assert s[..|m|] == m && s[|m|] == '\n';
      NewlineIndexAt(s, |m|);
      assert s[|m| + 1..] == Render(msgs[1..]);
      SplitRender(msgs[1..]);
      assert msgs == [m] + msgs[1..];
    }
  }

  /** The file written for a document that scans without error reads back as the collected messages. */
  lemma OutputReadsBack(lines: seq<string>)
    requires Driver.Scan(lines).Ok?
    ensures SplitLines(Render(Driver.Scan(lines).value)) == Driver.Scan(lines).value
  {
    Driver.ScanClean(lines);
    SplitRender(Driver.Scan(lines).value);
  }
}
