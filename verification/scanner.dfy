/**
 * One turn of the line scan in `main` of htmlToCsv.py, on line `i`: blank lines are
 * skipped, attachment lines give `$IMAGE$`, other lines are glued to the following
 * ones until they hold `">\n`, and a message-bearing logical line gives the message
 * getMessage extracts from it.
 */
module Scanner {
  import opened Wrappers
  import opened Strings
  import Extract

  /** MESSAGE_INDIC */
  const MESSAGE_INDIC := "markdown"
  /** EMBED_LINK_INDIC: the line is only the title of an embedded link. */
  const EMBED_LINK_INDIC := "chatlog__embed-"
  /** IMAGE_INDIC */
  const IMAGE_INDIC := "chatlog__attachment\""
  /** IMG_SYMBOL */
  const IMG := "$IMAGE$"
  /** A physical line without this does not end its element and continues on the next. */
  const LINE_END := "\">\n"
  /** Put between glued physical lines. */
  const SEPARATOR := ". "
  /**
   * Both are IndexErrors in the source: `lines[j]` past the last line while gluing,
   * and `[0]` on an empty match list in getMessage. `line` is the index of the line
   * being scanned.
   */
  datatype ScanError = Unterminated(line: nat) | NoMessageSpan(line: nat)

  /** What scanning one line does: the messages it appends, and whether it counts toward `cap`. */
  datatype Effect = Effect(emitted: seq<string>, counted: bool)

  /** A logical line fit for getMessage: it mentions `markdown` and is not an embed title. */
  predicate IsMessageLine(line: string) {
    Contains(line, MESSAGE_INDIC) && !Contains(line, EMBED_LINK_INDIC)
  }

  /** What the gluing loop started at line `i` holds after it has taken in line `j`. */
  function Joined(lines: seq<string>, i: nat, j: nat): string
    requires i <= j < |lines|
    decreases j - i
  {
    if j == i then lines[i] else DropLast(Joined(lines, i, j - 1)) + SEPARATOR + lines[j]
  }

  /** Lines `i .. j-1`, each without its last character and followed by the separator. */
  function Pieces(lines: seq<string>, i: nat, j: nat): string
    requires i <= j <= |lines|
    decreases j - i
  {
    if j == i then "" else Pieces(lines, i, j - 1) + DropLast(lines[j - 1]) + SEPARATOR
  }

  /**
   * A logical line spread over physical lines `i .. j` is those lines, each but the last
   * cut of its final character (its newline) and joined with ". ".
   */
  lemma {:induction false} JoinedPieces(lines: seq<string>, i: nat, j: nat)
    requires i <= j < |lines|
    requires forall k :: i <= k < j ==> lines[k] != ""
    ensures Joined(lines, i, j) == Pieces(lines, i, j) + lines[j]
  {
    if j > i {
      var before := Pieces(lines, i, j - 1);
      JoinedPieces(lines, i, j - 1);
      DropLastAppend(before, lines[j - 1]);
      calc {
        Joined(lines, i, j);
        DropLast(Joined(lines, i, j - 1)) + SEPARATOR + lines[j];
        DropLast(before + lines[j - 1]) + SEPARATOR + lines[j];
        before + DropLast(lines[j - 1]) + SEPARATOR + lines[j];
        Pieces(lines, i, j) + lines[j];
      }
    }
  }

  /** The gluing loop from line `i`, resumed after it has taken in line `j`. */
  function ReassembleFrom(lines: seq<string>, i: nat, j: nat): Result<string, ScanError>
    requires i <= j < |lines|
    decreases |lines| - j
  {
    if Contains(Joined(lines, i, j), LINE_END) then Ok(Joined(lines, i, j))
    else if j + 1 == |lines| then Err(Unterminated(i))
    else ReassembleFrom(lines, i, j + 1)
  }

  /** The logical line that starts at physical line `i` (htmlToCsv.py's inner `while`). */
  function Reassemble(lines: seq<string>, i: nat): Result<string, ScanError>
    requires i < |lines|
  {
    ReassembleFrom(lines, i, i)
  }

  /** Reassembly stops at the first physical line `j` whose glued text holds `">\n`. */
  lemma {:induction false} ReassembleAt(lines: seq<string>, i: nat, j: nat)
    requires i <= j < |lines|
    requires Contains(Joined(lines, i, j), LINE_END)
    requires forall k :: i <= k < j ==> !Contains(Joined(lines, i, k), LINE_END)
    ensures Reassemble(lines, i) == Ok(Joined(lines, i, j))
  {
    var k := j;
    while k > i
      invariant i <= k <= j
      invariant ReassembleFrom(lines, i, k) == Ok(Joined(lines, i, j))
    {
      k := k - 1;
    }
  }

  /** When no glued text up to the last line holds `">\n`, reassembly runs off the end. */
  lemma {:induction false} ReassembleFails(lines: seq<string>, i: nat)
    requires i < |lines|
    requires forall k :: i <= k < |lines| ==> !Contains(Joined(lines, i, k), LINE_END)
    ensures Reassemble(lines, i) == Err(Unterminated(i))
  {
    var k := |lines| - 1;
    while k > i
      invariant i <= k < |lines|
      invariant ReassembleFrom(lines, i, k) == Err(Unterminated(i))
    {
      k := k - 1;
    }
  }

  /**
   * A line glued to the next one is still scanned on its own afterwards: the text of
   * line `i + 1` ends up both in the logical line of `i` and in its own.
   */
  lemma GluedLineRescanned(lines: seq<string>, i: nat)
    requires i + 1 < |lines|
    requires !Contains(lines[i], LINE_END) && Contains(lines[i + 1], LINE_END)
    ensures Reassemble(lines, i) == Ok(DropLast(lines[i]) + SEPARATOR + lines[i + 1])
    ensures Reassemble(lines, i + 1) == Ok(lines[i + 1])
  {
    assert Joined(lines, i, i) == lines[i];
    assert Joined(lines, i, i + 1) == DropLast(lines[i]) + SEPARATOR + lines[i + 1];
    ContainsAppend(DropLast(lines[i]) + SEPARATOR, lines[i + 1], LINE_END);
    ReassembleAt(lines, i, i + 1);
    ReassembleAt(lines, i + 1, i + 1);
  }

  /** A physical line that goes on to the gluing loop and does not end its element there. */
  predicate OpenEnded(line: string) {
    line != "\n" && !Contains(line, IMAGE_INDIC) && !Contains(line, LINE_END)
  }

  /** A last line that is not blank, not an attachment and lacks `">\n` runs past the end. */
  lemma LastLineUnterminated(lines: seq<string>)
    requires |lines| > 0 && OpenEnded(lines[|lines| - 1])
    ensures Effects(lines)[|lines| - 1] == Err(Unterminated(|lines| - 1))
  {
    ReassembleFails(lines, |lines| - 1);
    EffectAt(lines, |lines| - 1);
  }

  /** The message handling of a logical line `line` that starts at physical line `i`. */
  function MessageEffect(line: string, i: nat): (r: Result<Effect, ScanError>)
    ensures r.Ok? ==> |r.value.emitted| <= 1
    ensures r.Ok? ==> forall m :: m in r.value.emitted ==> |m| > 1 && '\n' !in m
    ensures r.Ok? && r.value.counted <==> IsMessageLine(line) && Extract.GetMessage(line).Some?
    ensures r.Ok? && !r.value.counted ==> r.value.emitted == []
    ensures r.Ok? && r.value.counted ==>
      r.value.emitted == (if |Extract.GetMessage(line).value| > 1 then [Extract.GetMessage(line).value] else [])
    ensures r.Err? <==> IsMessageLine(line) && Extract.GetMessage(line).None?
    ensures r.Err? ==> r.error == NoMessageSpan(i)
  {
    if IsMessageLine(line) then
      match Extract.GetMessage(line)
      case None => Err(NoMessageSpan(i))
      case Some(m) => Ok(Effect(if |m| > 1 then [m] else [], true))
    else Ok(Effect([], false))
  }

  /** One pass of the `for` body on line `i`, up to (not including) the `cap` test. */
  function LineEffect(lines: seq<string>, i: nat): (r: Result<Effect, ScanError>)
    requires i < |lines|
    ensures lines[i] == "\n" ==> r == Ok(Effect([], false))
    ensures lines[i] != "\n" && Contains(lines[i], IMAGE_INDIC) ==> r == Ok(Effect([IMG], false))
    ensures r.Ok? ==> |r.value.emitted| <= 1
    ensures r.Ok? ==> forall m :: m in r.value.emitted ==> |m| > 1 && '\n' !in m
  {
    if lines[i] == "\n" then Ok(Effect([], false))
    else if Contains(lines[i], IMAGE_INDIC) then Ok(Effect([IMG], false))
    else
      match Reassemble(lines, i)
      case Err(e) => Err(e)
      case Ok(line) => MessageEffect(line, i)
  }

  /**
   * A physical line that is neither blank nor an attachment is glued up to the first
   * line `j` that ends its element, and the glued text goes to message handling: a text
   * that is no message line leaves everything alone, and one the pattern does not match
   * fails.
   */
  lemma GluedLineEffect(lines: seq<string>, i: nat, j: nat)
    requires i <= j < |lines| && lines[i] != "\n" && !Contains(lines[i], IMAGE_INDIC)
    requires Contains(Joined(lines, i, j), LINE_END)
    requires forall k :: i <= k < j ==> !Contains(Joined(lines, i, k), LINE_END)
    ensures !IsMessageLine(Joined(lines, i, j)) ==> LineEffect(lines, i) == Ok(Effect([], false))
    ensures IsMessageLine(Joined(lines, i, j)) && (forall p, q :: !Extract.IsMatch(Joined(lines, i, j), p, q)) ==>
      LineEffect(lines, i) == Err(NoMessageSpan(i))
  {
    ReassembleAt(lines, i, j);
  }

  /**
   * The message a glued message line appends: `$LINK$` when its first
   * `markdown">…</div` span is a link, otherwise the text between the markers when
   * it is longer than one character, and nothing when it is not; the line counts
   * toward `cap` either way.
   */
  lemma GluedLineMessage(lines: seq<string>, i: nat, j: nat, p: int, q: int)
    requires i <= j < |lines| && lines[i] != "\n" && !Contains(lines[i], IMAGE_INDIC)
    requires Contains(Joined(lines, i, j), LINE_END)
    requires forall k :: i <= k < j ==> !Contains(Joined(lines, i, k), LINE_END)
    requires IsMessageLine(Joined(lines, i, j)) && Extract.IsFirstMatch(Joined(lines, i, j), p, q)
    ensures Contains(Joined(lines, i, j)[p..q + |Extract.CLOSE|], Extract.LINK_INDIC) ==>
      LineEffect(lines, i) == Ok(Effect([Extract.LINK], true))
    ensures !Contains(Joined(lines, i, j)[p..q + |Extract.CLOSE|], Extract.LINK_INDIC) ==>
      var body := Joined(lines, i, j)[p + |Extract.OPEN|..q];
      LineEffect(lines, i) == Ok(Effect(if |body| > 1 then [body] else [], true))
  {
    var line := Joined(lines, i, j);
    assert LineEffect(lines, i) == MessageEffect(line, i) by {
      ReassembleAt(lines, i, j);
    }
    Extract.GetMessageOfFirstMatch(line, p, q);
  }

  /** The effects of lines `0 .. n-1`, each scanned on its own. */
  function EffectsUpTo(lines: seq<string>, n: nat): (effs: seq<Result<Effect, ScanError>>)
    requires n <= |lines|
    ensures |effs| == n
  {
    if n == 0 then [] else EffectsUpTo(lines, n - 1) + [LineEffect(lines, n - 1)]
  }

  /** The effect of every line of the document, each scanned on its own. */
  function Effects(lines: seq<string>): (effs: seq<Result<Effect, ScanError>>)
    ensures |effs| == |lines|
  {
    EffectsUpTo(lines, |lines|)
  }

  /** Entry `i` of the effects of lines `0 .. n-1` is the effect of line `i`. */
  lemma {:induction false} EffectUpToAt(lines: seq<string>, n: nat, i: nat)
    requires i < n <= |lines|
    ensures EffectsUpTo(lines, n)[i] == LineEffect(lines, i)
  {
    if i < n - 1 {
      EffectUpToAt(lines, n - 1, i);
    }
  }

  /** Entry `i` of the effects is the effect of line `i`. */
  lemma EffectAt(lines: seq<string>, i: nat)
    requires i < |lines|
    ensures Effects(lines)[i] == LineEffect(lines, i)
  {
    EffectUpToAt(lines, |lines|, i);
  }

  /** The inner `while` of `main`: glue physical lines from `i` on until one holds `">\n`. */
  method ReassembleLine(lines: seq<string>, i: nat) returns (r: Result<string, ScanError>)
    requires i < |lines|
    ensures r == Reassemble(lines, i)
  {
    var j := i + 1;
    var line := lines[i];
    while !Contains(line, LINE_END)
      invariant i < j <= |lines|
      invariant line == Joined(lines, i, j - 1)
      invariant forall k :: i <= k < j - 1 ==> !Contains(Joined(lines, i, k), LINE_END)
      decreases |lines| - j
    {
      if j >= |lines| {
        ReassembleFails(lines, i);
        return Err(Unterminated(i));
      }
      line := DropLast(line) + SEPARATOR + lines[j];
      j := j + 1;
    }
    ReassembleAt(lines, i, j - 1);
    return Ok(line);
  }
}
