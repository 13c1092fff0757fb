/**
 * The `for` loop of `main` in htmlToCsv.py as a whole: the effects of the lines, one
 * after the other, appended to `msgs`, with `cap` counting message-bearing lines and the
 * loop leaving once `cap` reaches 95. An error on a line ends the run with no output.
 *
 * The loop is specified twice over the per-line effects: `ScanFrom` follows it turn by
 * turn, and `Prefix` tallies a prefix of the document; lemmas connect the two, and the
 * method `ScanLines`, which runs the loop itself, is proved to compute `Scan`.
 */
module Driver {
  import opened Wrappers
  import opened Strings
  import opened Scanner
  import Extract

  /** `fin`: the number of message-bearing lines after which the scan stops. */
  const FIN := 95

  /** The messages and the `cap` reached after a prefix of the document. */
  datatype Tally = Tally(msgs: seq<string>, count: nat)

  /** The loop from line `i` on, with `cap` and `msgs` as earlier turns left them. */
  function ScanFrom(effs: seq<Result<Effect, ScanError>>, i: nat, cap: nat, msgs: seq<string>)
    : Result<seq<string>, ScanError>
    requires i <= |effs| && cap < FIN
    decreases |effs| - i
  {
    if i == |effs| then Ok(msgs)
    else
      match effs[i]
      case Err(e) => Err(e)
      case Ok(eff) =>
        var cap' := if eff.counted then cap + 1 else cap;
        if cap' >= FIN then Ok(msgs + eff.emitted)
        else ScanFrom(effs, i + 1, cap', msgs + eff.emitted)
  }

  /** The whole loop over the per-line effects. */
  function Run(effs: seq<Result<Effect, ScanError>>): Result<seq<string>, ScanError> {
    ScanFrom(effs, 0, 0, [])
  }

  /** The messages `main` collects from the lines of the document. */
  function Scan(lines: seq<string>): Result<seq<string>, ScanError> {
    Run(Effects(lines))
  }

  /** The effects of lines `0 .. n-1` added up in document order. */
  function Prefix(effs: seq<Result<Effect, ScanError>>, n: nat): Result<Tally, ScanError>
    requires n <= |effs|
  {
    if n == 0 then Ok(Tally([], 0))
    else
      match Prefix(effs, n - 1)
      case Err(e) => Err(e)
      case Ok(t) =>
        match effs[n - 1]
        case Err(e) => Err(e)
        case Ok(eff) => Ok(Tally(t.msgs + eff.emitted, t.count + if eff.counted then 1 else 0))
  }

  /** Lines `0 .. m-1` scan without error and fewer than FIN of them bear a message. */
  ghost predicate Below(effs: seq<Result<Effect, ScanError>>, m: nat)
    requires m <= |effs|
  {
    Prefix(effs, m).Ok? && Prefix(effs, m).value.count < FIN
  }

  /** The loop gets to line `n` (or past the last line, when `n == |effs|`). */
  ghost predicate RunsThrough(effs: seq<Result<Effect, ScanError>>, n: nat) {
    n <= |effs| && Below(effs, n) && forall m :: 0 <= m < n ==> Below(effs, m)
  }

  /** Per-line effects as LineEffect produces them: at most one message each, never a newline. */
  ghost predicate Tidy(effs: seq<Result<Effect, ScanError>>) {
    forall i :: 0 <= i < |effs| && effs[i].Ok? ==>
      |effs[i].value.emitted| <= 1 && forall m :: m in effs[i].value.emitted ==> |m| > 1 && '\n' !in m
  }

  /** Every message is longer than one character and holds no newline. */
  ghost predicate Clean(msgs: seq<string>) {
    forall m :: m in msgs ==> |m| > 1 && '\n' !in m
  }

  /** The effects of a document's lines are tidy. */
  lemma EffectsTidy(lines: seq<string>)
    ensures Tidy(Effects(lines))
  {
    var effs := Effects(lines);
    forall i | 0 <= i < |effs| && effs[i].Ok?
      ensures |effs[i].value.emitted| <= 1 && forall m :: m in effs[i].value.emitted ==> |m| > 1 && '\n' !in m
    {
      EffectAt(lines, i);
    }
  }

  /**
   * The loop reaches every line `k` below the cut-off with the tally of lines `0 .. k-1`:
   * `i` advances by one whatever the gluing consumed, so continuation lines are scanned
   * again on their own.
   */
  lemma {:induction false} ScanReaches(effs: seq<Result<Effect, ScanError>>, k: nat)
    requires RunsThrough(effs, k)
    ensures ScanFrom(effs, k, Prefix(effs, k).value.count, Prefix(effs, k).value.msgs) == Run(effs)
  {
    if k > 0 {
      assert Below(effs, k - 1);
      assert RunsThrough(effs, k - 1);
      ScanReaches(effs, k - 1);
    }
  }

  /** With fewer than FIN message-bearing lines, the output is every line's messages in order. */
  lemma RunToEnd(effs: seq<Result<Effect, ScanError>>)
    requires RunsThrough(effs, |effs|)
    ensures Run(effs) == Ok(Prefix(effs, |effs|).value.msgs)
  {
    ScanReaches(effs, |effs|);
  }

  /**
   * When line `n-1` is the FIN-th message-bearing line, the loop stops there: the output
   * is the messages of lines `0 .. n-1`, and the lines after it are never looked at.
   */
  lemma RunStopsAtCap(effs: seq<Result<Effect, ScanError>>, n: nat)
    requires 0 < n <= |effs| && RunsThrough(effs, n - 1)
    requires Prefix(effs, n).Ok? && Prefix(effs, n).value.count == FIN
    ensures Run(effs) == Ok(Prefix(effs, n).value.msgs)
  {
    ScanReaches(effs, n - 1);
    assert Below(effs, n - 1);
  }

  /** An error on a line the loop reaches is the result of the whole run; nothing is output. */
  lemma RunFailsAt(effs: seq<Result<Effect, ScanError>>, n: nat)
    requires n < |effs| && RunsThrough(effs, n)
    requires effs[n].Err?
    ensures Run(effs) == Err(effs[n].error)
  {
    ScanReaches(effs, n);
  }

  /**
   * A scan that gets to the last line fails there unless that line is blank, an attachment
   * or holds `">\n`: the gluing loop has no next line to read.
   */
  lemma ScanFailsAtLastLine(lines: seq<string>)
    requires |lines| > 0 && RunsThrough(Effects(lines), |lines| - 1)
    requires OpenEnded(lines[|lines| - 1])
    ensures Scan(lines) == Err(Unterminated(|lines| - 1))
  {
    LastLineUnterminated(lines);
    RunFailsAt(Effects(lines), |lines| - 1);
  }

  /** Each line adds at most one to `cap` and at most one message. */
  lemma {:induction false} PrefixCountBound(effs: seq<Result<Effect, ScanError>>, n: nat)
    requires n <= |effs| && Tidy(effs) && Prefix(effs, n).Ok?
    ensures Prefix(effs, n).value.count <= n
    ensures |Prefix(effs, n).value.msgs| <= n
  {
    if n > 0 {
      PrefixCountBound(effs, n - 1);
    }
  }

  /** What the loop appends to clean messages is clean. */
  lemma {:induction false} ScanFromClean(effs: seq<Result<Effect, ScanError>>, i: nat, cap: nat, msgs: seq<string>)
    requires i <= |effs| && cap < FIN && Tidy(effs) && Clean(msgs)
    requires ScanFrom(effs, i, cap, msgs).Ok?
    ensures Clean(ScanFrom(effs, i, cap, msgs).value)
    decreases |effs| - i
  {
    if i < |effs| {
      var eff := effs[i].value;
      var cap' := if eff.counted then cap + 1 else cap;
      if cap' < FIN {
        ScanFromClean(effs, i + 1, cap', msgs + eff.emitted);
      }
    }
  }

  /** The whole scan's output: every message is longer than one character and holds no newline. */
  lemma ScanClean(lines: seq<string>)
    requires Scan(lines).Ok?
    ensures Clean(Scan(lines).value)
  {
    EffectsTidy(lines);
    ScanFromClean(Effects(lines), 0, 0, []);
  }

  /**
   * One turn of the loop of `main` on line `i`, up to the `cap` test: the checks for a
   * blank or attachment line, the gluing, and getMessage.
   */
  method ScanLine(lines: seq<string>, i: nat) returns (r: Result<Effect, ScanError>)
    requires i < |lines|
    ensures r == LineEffect(lines, i)
  {
    var line := lines[i];
    if line == "\n" {
      return Ok(Effect([], false));
    }
    if Contains(line, IMAGE_INDIC) {
      return Ok(Effect([IMG], false));
    }
    var logical := ReassembleLine(lines, i);
    if logical.Err? {
      return Err(logical.error);
    }
    line := logical.value;
    if Contains(line, MESSAGE_INDIC) && !Contains(line, EMBED_LINK_INDIC) {
      var message := Extract.GetMessage(line);
      if message.None? {
        return Err(NoMessageSpan(i));
      }
      var emitted := if |message.value| > 1 then [message.value] else [];
      return Ok(Effect(emitted, true));
    }
    return Ok(Effect([], false));
  }

  /**
   * The loop of `main` (htmlToCsv.py lines 48-71), with `msgs` and `cap` as local state.
   * An IndexError of the source ends the scan with an error and no messages.
   */
  method ScanLines(lines: seq<string>) returns (r: Result<seq<string>, ScanError>)
    ensures r == Scan(lines)
  {
    ghost var effs := Effects(lines);
    var msgs: seq<string> := [];
    var cap: nat := 0;
    for i := 0 to |lines|
      invariant cap < FIN
      invariant ScanFrom(effs, i, cap, msgs) == Scan(lines)
    {
      var eff := ScanLine(lines, i);
      EffectAt(lines, i);
      if eff.Err? {
        return Err(eff.error);
      }
      msgs := msgs + eff.value.emitted;
      if eff.value.counted {
        cap := cap + 1;
      }
      if cap >= FIN {
        break;
      }
    }
    return Ok(msgs);
  }
}
