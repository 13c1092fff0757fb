/**
 * `getMessage` of htmlToCsv.py: the first match of the pattern `markdown">.*?</div`
 * on a logical line, turned into the `$LINK$` sentinel or the text between the markers.
 *
 * The pattern is one fixed regular expression, so it is modelled as the search the
 * regular-expression engine performs for it: the leftmost start `p` where `markdown">`
 * occurs and is followed, with no newline in between (`.` does not match `\n`), by
 * `</div`; for that start, the nearest such `</div` (the `*?` is lazy).
 */
module Extract {
  import opened Wrappers
  import opened Strings

  /** The fixed front of the message pattern. */
  const OPEN := "markdown\">"
  /** The fixed back of the message pattern. */
  const CLOSE := "</div"
  /** MESSAGE_LINK_INDIC: the message is a link. */
  const LINK_INDIC := "markdown\"><a href="
  /** LINK_SYMBOL */
  const LINK := "$LINK$"

  /** A match of the pattern: `OPEN` at `start`, `CLOSE` at `close`. */
  datatype Span = Span(start: nat, close: nat)

  /** The pattern matches `line[p .. q + |CLOSE|]`. */
  ghost predicate IsMatch(line: string, p: int, q: int) {
    && StartsAt(line, p, OPEN)
    && p + |OPEN| <= q
    && StartsAt(line, q, CLOSE)
    && '\n' !in line[p + |OPEN|..q]
  }

  /** `(p, q)` is the match the engine reports first: leftmost start, then shortest. */
  ghost predicate IsFirstMatch(line: string, p: int, q: int) {
    && IsMatch(line, p, q)
    && forall p', q' :: IsMatch(line, p', q') ==> p < p' || (p == p' && q <= q')
  }

  /** The lazy `.*?</div` from index `from`: the nearest `CLOSE` not preceded by a newline. */
  function FindClose(line: string, from: nat): (r: Option<nat>)
    decreases |line| - from
    ensures r.Some? ==> from <= r.value && StartsAt(line, r.value, CLOSE)
    ensures r.Some? ==> '\n' !in line[from..r.value]
    ensures r.Some? ==> forall k :: from <= k < r.value ==> !StartsAt(line, k, CLOSE)
    ensures r.None? ==> forall q :: from <= q && StartsAt(line, q, CLOSE) ==> '\n' in line[from..q]
  {
    if StartsAt(line, from, CLOSE) then Some(from)
    else if from >= |line| || line[from] == '\n' then None
    else
      var r := FindClose(line, from + 1);
      assert r.Some? ==> line[from..r.value] == [line[from]] + line[from + 1..r.value];
      assert forall q :: from + 1 <= q <= |line| ==> line[from..q] == [line[from]] + line[from + 1..q];
      r
  }

  /** The leftmost match whose start is at or after `from`. */
  function FindMatch(line: string, from: nat): (r: Option<Span>)
    decreases |line| - from
    ensures r.Some? ==> from <= r.value.start && IsMatch(line, r.value.start, r.value.close)
    ensures r.Some? ==> forall p, q :: from <= p && IsMatch(line, p, q) ==>
      r.value.start < p || (r.value.start == p && r.value.close <= q)
    ensures r.None? ==> forall p, q :: from <= p ==> !IsMatch(line, p, q)
  {
    if from + |OPEN| > |line| then None
    else if StartsAt(line, from, OPEN) && FindClose(line, from + |OPEN|).Some? then
      Some(Span(from, FindClose(line, from + |OPEN|).value))
    else FindMatch(line, from + 1)
  }

  /** `re.findall(RE_MESSAGE, line)[0]`, located: `None` when the list would be empty. */
  function FirstMatch(line: string): (r: Option<Span>)
    ensures r.Some? ==> IsFirstMatch(line, r.value.start, r.value.close)
    ensures r.None? ==> forall p, q :: !IsMatch(line, p, q)
  {
    FindMatch(line, 0)
  }

  /**
   * getMessage: `None` stands for the IndexError raised on an empty match list.
   * A message never holds a newline, since `.` in the pattern does not match one.
   */
  function GetMessage(line: string): (r: Option<string>)
    ensures r.None? <==> forall p, q :: !IsMatch(line, p, q)
    ensures r.Some? ==> '\n' !in r.value
  {
    match FirstMatch(line)
    case None => None
    case Some(s) =>
      var temp := line[s.start..s.close + |CLOSE|];
      if Contains(temp, LINK_INDIC) then Some(LINK)
      else
        assert temp[10..|temp| - 5] == line[s.start + |OPEN|..s.close];
        Some(temp[10..|temp| - 5])
  }

  /** There is only one first match, and FirstMatch finds it. */
  lemma FirstMatchUnique(line: string, p: int, q: int)
    requires IsFirstMatch(line, p, q)
    ensures FirstMatch(line) == Some(Span(p, q))
  {
    var s := FirstMatch(line).value;
    assert IsMatch(line, s.start, s.close);
  }

  /**
   * What getMessage returns for the first match `line[p .. q + 5]`: the link sentinel
   * exactly when that span holds MESSAGE_LINK_INDIC, and otherwise the text strictly
   * between the markers, 15 characters shorter than the span, holding neither `</div`
   * nor a newline.
   */
  lemma GetMessageOfFirstMatch(line: string, p: int, q: int)
    requires IsFirstMatch(line, p, q)
    ensures Contains(line[p..q + |CLOSE|], LINK_INDIC) ==> GetMessage(line) == Some(LINK)
    ensures !Contains(line[p..q + |CLOSE|], LINK_INDIC) ==>
      && GetMessage(line) == Some(line[p + |OPEN|..q])
      && OPEN + GetMessage(line).value + CLOSE == line[p..q + |CLOSE|]
      && |GetMessage(line).value| == |line[p..q + |CLOSE|]| - 15
      && !Contains(GetMessage(line).value, CLOSE)
      && '\n' !in GetMessage(line).value
  {
    FirstMatchUnique(line, p, q);
    var span := line[p..q + |CLOSE|];
    if !Contains(span, LINK_INDIC) {
      var body := GetMessage(line).value;
      assert body == line[p + |OPEN|..q];
      assert span == line[p..p + |OPEN|] + body + line[q..q + |CLOSE|];
      LazyBodyHasNoClose(line, p, q);
    }
  }

  /** The lazy `.*?` stops at the first `</div`: the text it spans holds none. */
  lemma LazyBodyHasNoClose(line: string, p: int, q: int)
    requires IsFirstMatch(line, p, q)
    ensures !Contains(line[p + |OPEN|..q], CLOSE)
  {
    var body := line[p + |OPEN|..q];
    if Contains(body, CLOSE) {
      var k :| 0 <= k <= |body| - |CLOSE| && StartsAt(body, k, CLOSE);
      StartsAtInSlice(line, p + |OPEN|, q, k, CLOSE);
      assert line[p + |OPEN|..p + |OPEN| + k] == body[..k];
      assert IsMatch(line, p, p + |OPEN| + k);
      assert false;
    }
  }
}
