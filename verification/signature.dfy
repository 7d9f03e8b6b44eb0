/**
 * Author/committer signature lines, as read by `git_signature__parse`:
 *
 *   <header><name> <<email>> <seconds> <+/-HHMM><ender>
 *
 * The parse fails only on a structural fault (no terminator, wrong header,
 * no '<', no '>' after it). A missing or malformed timestamp or zone is
 * tolerated: both time fields are then zero.
 */
module Signatures {
  import opened Results
  import opened Text

  /** Largest value of the signed 64-bit `git_time_t`. */
  const MaxSeconds: int := 0x7FFF_FFFF_FFFF_FFFF
  /** Largest hour and minute fields a `+/-HHMM` zone may carry. */
  const MaxZoneHours: int := 14
  const MaxZoneMinutes: int := 59
  /** Largest offset, in minutes, a zone can express. */
  const MaxOffset: int := MaxZoneHours * 60 + MaxZoneMinutes

  /** Seconds since the epoch and the offset from UTC in minutes. */
  datatype Time = Time(seconds: int, offset: int)

  datatype Signature = Signature(name: seq<char>, email: seq<char>, when: Time)

  predicate ValidOffset(offset: int) {
    -MaxOffset <= offset <= MaxOffset
  }

  predicate IsSign(c: char) {
    c == '+' || c == '-'
  }

  // ---------------------------------------------------------------------
  // Timestamp and zone tokens

  /** A timestamp token: one or more decimal digits whose value fits `git_time_t`. */
  function ParseSeconds(tok: seq<char>): (r: Option<nat>)
    ensures r.Some? ==> r.value <= MaxSeconds && AllDigits(tok) && |tok| > 0
  {
    if |tok| > 0 && AllDigits(tok) && DecimalValue(tok) <= MaxSeconds then Some(DecimalValue(tok))
    else None
  }

  /** `tok` has the shape of a zone: a sign and exactly four digits. */
  predicate ZoneShaped(tok: seq<char>) {
    |tok| == 5 && IsSign(tok[0]) && AllDigits(tok[1..])
  }

  /** The `HH` field of a zone-shaped token. */
  function ZoneHours(tok: seq<char>): nat
    requires ZoneShaped(tok)
  {
    DigitValue(tok[1]) * 10 + DigitValue(tok[2])
  }

  /** The `MM` field of a zone-shaped token. */
  function ZoneMinutes(tok: seq<char>): nat
    requires ZoneShaped(tok)
  {
    DigitValue(tok[3]) * 10 + DigitValue(tok[4])
  }

  /**
   * A zone token `+HHMM` or `-HHMM`: a sign and exactly four digits, with at
   * most 14 hours and at most 59 minutes. Its value is the signed offset in
   * minutes; any other token is rejected.
   */
  function ParseZone(tok: seq<char>): (r: Option<int>)
    ensures r.Some? <==> ZoneShaped(tok) && ZoneHours(tok) <= MaxZoneHours && ZoneMinutes(tok) <= MaxZoneMinutes
    ensures r.Some? ==> ValidOffset(r.value)
    ensures r.Some? ==> (r.value < 0 ==> tok[0] == '-') && (r.value > 0 ==> tok[0] == '+')
  {
    if ZoneShaped(tok) && ZoneHours(tok) <= MaxZoneHours && ZoneMinutes(tok) <= MaxZoneMinutes then
      var magnitude := ZoneHours(tok) * 60 + ZoneMinutes(tok);
      Some(if tok[0] == '-' then -magnitude else magnitude)
    else None
  }

  /** The `+/-HHMM` token of an offset. */
  function FormatZone(offset: int): (tok: seq<char>)
    requires ValidOffset(offset)
    ensures |tok| == 5 && IsSign(tok[0]) && AllDigits(tok[1..])
  {
    var magnitude := if offset < 0 then -offset else offset;
    var hours, minutes := magnitude / 60, magnitude % 60;
    [if offset < 0 then '-' else '+',
     DigitChar(hours / 10), DigitChar(hours % 10), DigitChar(minutes / 10), DigitChar(minutes % 10)]
  }

  /** Every expressible offset survives formatting and parsing. */
  lemma ZoneRoundTrip(offset: int)
    requires ValidOffset(offset)
    ensures ParseZone(FormatZone(offset)) == Some(offset)
  {
  }

  /**
   * The converse of `ZoneRoundTrip`: an accepted token is the canonical
   * spelling of its offset, except that a zero offset may also be written
   * `-0000`.
   */
  lemma ZoneCanonical(tok: seq<char>)
    requires ParseZone(tok).Some?
    ensures var z := ParseZone(tok).value;
            tok == FormatZone(z) || tok == "-0000"
  {
  }

  /** Reading a rendered timestamp gives it back. */
  lemma SecondsRoundTrip(n: nat)
    requires n <= MaxSeconds
    ensures ParseSeconds(ShowNat(n)) == Some(n)
  {
    DecimalOfShowNat(n);
  }

  // ---------------------------------------------------------------------
  // The time fields at the end of a line

  /**
   * The timestamp and zone taken from the trailing words of `t`, the text
   * between the email's '>' and the line terminator. A last word starting
   * with a sign is the zone and the word before it the timestamp; otherwise
   * the last word is the timestamp and the offset is zero. Any missing or
   * malformed field zeroes both.
   */
  function ParseWhen(t: seq<char>): (w: Time)
    ensures 0 <= w.seconds <= MaxSeconds && ValidOffset(w.offset)
  {
    match LastWord(t, 0, |t|)
    case None => Time(0, 0)
    case Some((b, e)) =>
      if IsSign(t[b]) then
        match LastWord(t, 0, b)
        case None => Time(0, 0)
        case Some((b', e')) =>
          match (ParseSeconds(t[b'..e']), ParseZone(t[b..e]))
          case (Some(seconds), Some(offset)) => Time(seconds, offset)
          case _ => Time(0, 0)
      else
        match ParseSeconds(t[b..e])
        case Some(seconds) => Time(seconds, 0)
        case None => Time(0, 0)
  }

  /** `pre` ends where a word may begin: it is empty or ends in whitespace. */
  predicate EndsAtWordBoundary(pre: seq<char>) {
    |pre| == 0 || IsSpace(pre[|pre| - 1])
  }

  /** Nothing but whitespace after the email: no time at all. */
  lemma WhenOfBlank(t: seq<char>)
    requires AllSpace(t)
    ensures ParseWhen(t) == Time(0, 0)
  {
    LastWordSpan(t, 0, |t|);
  }

  /**
   * When the last word does not start with a sign it is the timestamp,
   * whatever free text comes before it; the offset is then zero.
   */
  lemma WhenOfSecondsOnly(pre: seq<char>, word: seq<char>, trail: seq<char>)
    requires EndsAtWordBoundary(pre) && |word| > 0 && NoSpace(word) && AllSpace(trail)
    requires !IsSign(word[0])
    ensures ParseWhen(pre + word + trail)
         == match ParseSeconds(word) case Some(seconds) => Time(seconds, 0) case None => Time(0, 0)
  {
    var t := pre + word + trail;
    LastWordIs(t, 0, |pre|, |pre| + |word|, |t|);
    assert t[|pre|..|pre| + |word|] == word;
  }

  /**
   * When the last word, at [zb, ze), starts with a sign it is the zone and the
   * word before it, at [sb, se), is the timestamp; both must be valid, or both
   * fields are zero.
   */
  lemma WhenOfWords(t: seq<char>, sb: nat, se: nat, zb: nat, ze: nat)
    requires sb < se < zb < ze <= |t|
    requires sb == 0 || IsSpace(t[sb - 1])
    requires forall k | sb <= k < se :: !IsSpace(t[k])
    requires forall k | se <= k < zb :: IsSpace(t[k])
    requires forall k | zb <= k < ze :: !IsSpace(t[k])
    requires forall k | ze <= k < |t| :: IsSpace(t[k])
    requires IsSign(t[zb])
    ensures ParseWhen(t)
         == match (ParseSeconds(t[sb..se]), ParseZone(t[zb..ze]))
            case (Some(s), Some(z)) => Time(s, z)
            case _ => Time(0, 0)
  {
    LastWordIs(t, 0, zb, ze, |t|);
    LastWordIs(t, 0, sb, se, zb);
  }

  /** `WhenOfWords` for a tail assembled from its parts. */
  lemma WhenOfSecondsAndZone(pre: seq<char>, seconds: seq<char>, gap: seq<char>, zone: seq<char>, trail: seq<char>)
    requires EndsAtWordBoundary(pre) && |seconds| > 0 && NoSpace(seconds)
    requires |gap| > 0 && AllSpace(gap)
    requires |zone| > 0 && NoSpace(zone) && IsSign(zone[0]) && AllSpace(trail)
    ensures ParseWhen(pre + seconds + gap + zone + trail)
         == match (ParseSeconds(seconds), ParseZone(zone))
            case (Some(s), Some(z)) => Time(s, z)
            case _ => Time(0, 0)
  {
    var t := pre + seconds + gap + zone + trail;
    var se := |pre| + |seconds|;
    var zb := se + |gap|;
    var ze := zb + |zone|;
    assert forall k | |pre| <= k < se :: t[k] == seconds[k - |pre|];
    assert forall k | se <= k < zb :: t[k] == gap[k - se];
    assert forall k | zb <= k < ze :: t[k] == zone[k - zb];
    assert forall k | ze <= k < |t| :: t[k] == trail[k - ze];
    assert |pre| > 0 ==> t[|pre| - 1] == pre[|pre| - 1];
    assert t[|pre|..se] == seconds;
    assert t[zb..ze] == zone;
    WhenOfWords(t, |pre|, se, zb, ze);
  }

  // ---------------------------------------------------------------------
  // Signature lines
  //
  // The parser reads from a cursor to the end of the buffer and never looks
  // behind the cursor, so it is modelled on the remaining text `s`: index 0
  // is the cursor, and a successful parse reports how many characters it
  // consumed.

  /**
   * The delimiters the parser looks for: the first terminator at `lineEnd`,
   * the header at the start, the first '<' after the header at `lt` and the
   * first '>' after that at `gt`, all before the terminator.
   */
  ghost predicate Delimited(s: seq<char>, header: seq<char>, ender: char, lineEnd: nat, lt: nat, gt: nat) {
    && |header| <= lt < gt < lineEnd < |s|
    && HasAt(s, 0, header)
    && s[lineEnd] == ender && (forall k | 0 <= k < lineEnd :: s[k] != ender)
    && s[lt] == '<' && (forall k | |header| <= k < lt :: s[k] != '<')
    && s[gt] == '>' && (forall k | lt < k < gt :: s[k] != '>')
  }

  /** Finds the delimiters of a signature line, if it has them all. */
  function Delimiters(s: seq<char>, header: seq<char>, ender: char): Option<(nat, nat, nat)> {
    match IndexOf(s, ender, 0, |s|)
    case None => None
    case Some(lineEnd) =>
      if lineEnd < |header| || !HasAt(s, 0, header) then None
      else
        match IndexOf(s, '<', |header|, lineEnd)
        case None => None
        case Some(lt) =>
          match IndexOf(s, '>', lt + 1, lineEnd)
          case None => None
          case Some(gt) => Some((lineEnd, lt, gt))
  }

  /** The delimiters found are where `Delimited` says. */
  lemma DelimitersSound(s: seq<char>, header: seq<char>, ender: char)
    ensures var r := Delimiters(s, header, ender);
            r.Some? ==> Delimited(s, header, ender, r.value.0, r.value.1, r.value.2)
  {
    IndexOfFirst(s, ender, 0, |s|);
    match IndexOf(s, ender, 0, |s|)
    case None =>
    case Some(lineEnd) =>
      if |header| <= lineEnd {
        IndexOfFirst(s, '<', |header|, lineEnd);
        match IndexOf(s, '<', |header|, lineEnd)
        case None =>
        case Some(lt) =>
          IndexOfFirst(s, '>', lt + 1, lineEnd);
      }
  }

  /** Delimiters that are where `Delimited` says are the ones found. */
  lemma DelimitersAre(s: seq<char>, header: seq<char>, ender: char, lineEnd: nat, lt: nat, gt: nat)
    requires Delimited(s, header, ender, lineEnd, lt, gt)
    ensures Delimiters(s, header, ender) == Some((lineEnd, lt, gt))
  {
    IndexOfAt(s, ender, 0, lineEnd, |s|);
    IndexOfAt(s, '<', |header|, lt, lineEnd);
    IndexOfAt(s, '>', lt + 1, gt, lineEnd);
  }

  /** The delimiters found are in order and before the end of the text. */
  lemma DelimitersInRange(s: seq<char>, header: seq<char>, ender: char)
    ensures var r := Delimiters(s, header, ender);
            r.Some? ==> |header| <= r.value.1 < r.value.2 < r.value.0 < |s|
  {
    DelimitersSound(s, header, ender);
  }

  /**
   * Reads a signature line from the start of `s`. The line ends at the first
   * `ender`; it must start with `header`; the name runs up to the first '<'
   * after the header and the email from there to the first '>' after that
   * '<' (both trimmed); the time fields come from what follows the '>'.
   * Returns the signature and the length of the line, terminator included.
   */
  function ParseSignature(s: seq<char>, header: seq<char>, ender: char): (r: Result<(Signature, nat)>)
    ensures r.Ok? ==> |header| < r.value.1 <= |s| && s[r.value.1 - 1] == ender
    ensures r.Err? ==> r.error == MalformedSignature
  {
    DelimitersInRange(s, header, ender);
    DelimitersSound(s, header, ender);
    match Delimiters(s, header, ender)
    case None => Err(MalformedSignature)
    case Some((lineEnd, lt, gt)) => Ok((FieldsBetween(s, |header|, lt, gt, lineEnd), lineEnd + 1))
  }

  /**
   * The fields of a line whose name starts at `nameStart`, whose delimiters
   * are at `lt` and `gt` and whose terminator is at `lineEnd`.
   */
  function FieldsBetween(s: seq<char>, nameStart: nat, lt: nat, gt: nat, lineEnd: nat): Signature
    requires nameStart <= lt < gt < lineEnd <= |s|
  {
    Signature(Trim(s[nameStart..lt]), Trim(s[lt + 1..gt]), ParseWhen(s[gt + 1..lineEnd]))
  }

  /**
   * A parsed line starts with the header and its terminator is the first
   * `ender` in the text.
   */
  lemma SignatureLine(s: seq<char>, header: seq<char>, ender: char)
    requires ParseSignature(s, header, ender).Ok?
    ensures HasAt(s, 0, header)
    ensures forall k | 0 <= k < ParseSignature(s, header, ender).value.1 - 1 :: s[k] != ender
  {
    DelimitersSound(s, header, ender);
  }

  /** Once the delimiters are known, the parse is the fields between them. */
  lemma ParseOfDelimiters(s: seq<char>, header: seq<char>, ender: char, lineEnd: nat, lt: nat, gt: nat)
    requires Delimiters(s, header, ender) == Some((lineEnd, lt, gt))
    ensures |header| <= lt < gt < lineEnd < |s|
    ensures Parsed(ParseSignature(s, header, ender), FieldsBetween(s, |header|, lt, gt, lineEnd), lineEnd + 1)
  {
    DelimitersInRange(s, header, ender);
  }

  /**
   * On a line whose first terminator is at `lineEnd`, whose first '<' after
   * the header is at `lt` and whose first '>' after that is at `gt`, the
   * parser returns the trimmed name, the trimmed email and the time fields of
   * the rest of the line, and consumes the line.
   */
  lemma SignatureAt(s: seq<char>, header: seq<char>, ender: char, lineEnd: nat, lt: nat, gt: nat)
    requires Delimited(s, header, ender, lineEnd, lt, gt)
    ensures Parsed(ParseSignature(s, header, ender),
                   Signature(Trim(s[|header|..lt]), Trim(s[lt + 1..gt]), ParseWhen(s[gt + 1..lineEnd])),
                   lineEnd + 1)
  {
    DelimitersAre(s, header, ender, lineEnd, lt, gt);
    ParseOfDelimiters(s, header, ender, lineEnd, lt, gt);
  }

  /**
   * The structural shape a signature line must have: a terminator at
   * `lineEnd` with none before it, the header at the start, and on the line
   * after the header a '<' at `lt` followed by a '>' at `gt`.
   */
  ghost predicate ShapedAt(s: seq<char>, header: seq<char>, ender: char, lineEnd: nat, lt: nat, gt: nat) {
    && |header| <= lt < gt < lineEnd < |s|
    && s[lineEnd] == ender && (forall k | 0 <= k < lineEnd :: s[k] != ender)
    && HasAt(s, 0, header)
    && s[lt] == '<' && s[gt] == '>'
  }

  /** The signature parser fails exactly on text without that structural shape. */
  lemma SignatureAcceptsExactly(s: seq<char>, header: seq<char>, ender: char)
    ensures ParseSignature(s, header, ender).Ok?
        <==> exists lineEnd: nat, lt: nat, gt: nat :: ShapedAt(s, header, ender, lineEnd, lt, gt)
  {
    var d := Delimiters(s, header, ender);
    DelimitersSound(s, header, ender);
    if d.Some? {
      var (lineEnd, lt, gt) := d.value;
      assert ShapedAt(s, header, ender, lineEnd, lt, gt);
    }
    if exists lineEnd: nat, lt: nat, gt: nat :: ShapedAt(s, header, ender, lineEnd, lt, gt) {
      var lineEnd: nat, lt: nat, gt: nat :| ShapedAt(s, header, ender, lineEnd, lt, gt);
      IndexOfAt(s, ender, 0, lineEnd, |s|);
      IndexOfFirst(s, '<', |header|, lineEnd);
      var lt0 := IndexOf(s, '<', |header|, lineEnd);
      assert lt0.Some? && lt0.value <= lt;
      IndexOfFirst(s, '>', lt0.value + 1, lineEnd);
      var gt0 := IndexOf(s, '>', lt0.value + 1, lineEnd);
      assert s[gt] == '>';
      assert gt0.Some?;
      assert d.Some?;
    }
  }

  /**
   * Whatever the parser returns is well formed: trimmed fields free of their
   * delimiters and of the terminator, and time fields in range, so it can be
   * written back out.
   */
  lemma ParsedSignatureWellFormed(s: seq<char>, header: seq<char>, ender: char)
    ensures var r := ParseSignature(s, header, ender);
            r.Ok? ==> WellFormed(r.value.0, ender)
  {
    var d := Delimiters(s, header, ender);
    if d.Some? {
      var (lineEnd, lt, gt) := d.value;
      assert NoneIn(s, |header|, lt, gt, ender) by {
        DelimitersSound(s, header, ender);
      }
      ParseOfDelimiters(s, header, ender, lineEnd, lt, gt);
      FieldsKeepOut(s, |header|, lt, gt, lineEnd, ender);
    }
  }

  /** No delimiter in the name or email part, and no terminator in either. */
  ghost predicate NoneIn(s: seq<char>, nameStart: nat, lt: nat, gt: nat, ender: char) {
    && lt <= gt <= |s|
    && (forall k | nameStart <= k < lt :: s[k] != '<' && s[k] != ender)
    && (forall k | lt < k < gt :: s[k] != '>' && s[k] != ender)
  }

  /** The fields of a line free of stray delimiters are well formed. */
  lemma FieldsKeepOut(s: seq<char>, nameStart: nat, lt: nat, gt: nat, lineEnd: nat, ender: char)
    requires nameStart <= lt < gt < lineEnd <= |s| && NoneIn(s, nameStart, lt, gt, ender)
    ensures WellFormed(FieldsBetween(s, nameStart, lt, gt, lineEnd), ender)
  {
    NotInSlice(s, '<', nameStart, lt);
    NotInSlice(s, ender, nameStart, lt);
    NotInSlice(s, '>', lt + 1, gt);
    NotInSlice(s, ender, lt + 1, gt);
    TrimKeepsOut(s[nameStart..lt], '<');
    TrimKeepsOut(s[nameStart..lt], ender);
    TrimKeepsOut(s[lt + 1..gt], '>');
    TrimKeepsOut(s[lt + 1..gt], ender);
  }

  /** Cut before its terminator, a signature line no longer parses. */
  lemma SignatureTruncated(s: seq<char>, header: seq<char>, ender: char, k: nat)
    requires k <= |s|
    requires ParseSignature(s, header, ender).Ok? && k < ParseSignature(s, header, ender).value.1
    ensures ParseSignature(s[..k], header, ender).Err?
  {
    SignatureLine(s, header, ender);
    var u := s[..k];
    assert forall j | 0 <= j < k :: u[j] == s[j];
    IndexOfFirst(u, ender, 0, k);
    assert IndexOf(u, ender, 0, k).None?;
  }

  // ---------------------------------------------------------------------
  // Locality: the parser reads its own line and nothing after it

  /** Texts that agree up to a terminator have their delimiters in the same places. */
  lemma DelimitedAgree(u: seq<char>, v: seq<char>, n: nat, header: seq<char>, ender: char, lineEnd: nat, lt: nat, gt: nat)
    requires Delimited(u, header, ender, lineEnd, lt, gt)
    requires lineEnd < n <= |u| && n <= |v| && v[..n] == u[..n]
    ensures Delimited(v, header, ender, lineEnd, lt, gt)
  {
    assert forall k | 0 <= k < n :: v[k] == v[..n][k] == u[..n][k] == u[k];
  }

  /** Texts that agree up to a terminator have the same fields before it. */
  lemma FieldsAgree(u: seq<char>, v: seq<char>, n: nat, nameStart: nat, lt: nat, gt: nat, lineEnd: nat)
    requires nameStart <= lt < gt < lineEnd < n <= |u| && n <= |v| && v[..n] == u[..n]
    ensures FieldsBetween(v, nameStart, lt, gt, lineEnd) == FieldsBetween(u, nameStart, lt, gt, lineEnd)
  {
    PartsAgree(u, v, n, nameStart, lt, gt, lineEnd);
  }

  /** The name, email and time parts of texts that agree up to a terminator. */
  lemma PartsAgree(u: seq<char>, v: seq<char>, n: nat, nameStart: nat, lt: nat, gt: nat, lineEnd: nat)
    requires nameStart <= lt < gt < lineEnd < n <= |u| && n <= |v| && v[..n] == u[..n]
    ensures v[nameStart..lt] == u[nameStart..lt]
    ensures v[lt + 1..gt] == u[lt + 1..gt]
    ensures v[gt + 1..lineEnd] == u[gt + 1..lineEnd]
  {
    assert forall k | 0 <= k < n :: v[k] == v[..n][k] == u[..n][k] == u[k];
  }

  /**
   * The parser reads nothing past the terminator: any text that agrees with
   * a parsed line up to its terminator parses to the same signature and
   * consumes the same line.
   */
  lemma SignatureLocal(u: seq<char>, v: seq<char>, header: seq<char>, ender: char)
    requires ParseSignature(u, header, ender).Ok?
    requires var n := ParseSignature(u, header, ender).value.1; n <= |v| && v[..n] == u[..n]
    ensures Parsed(ParseSignature(v, header, ender),
                   ParseSignature(u, header, ender).value.0, ParseSignature(u, header, ender).value.1)
  {
    var n := ParseSignature(u, header, ender).value.1;
    var (lineEnd, lt, gt) := Delimiters(u, header, ender).value;
    ParseOfDelimiters(u, header, ender, lineEnd, lt, gt);
    assert Delimiters(v, header, ender) == Some((lineEnd, lt, gt)) by {
      DelimitersSound(u, header, ender);
      DelimitedAgree(u, v, n, header, ender, lineEnd, lt, gt);
      DelimitersAre(v, header, ender, lineEnd, lt, gt);
    }
    ParseOfDelimiters(v, header, ender, lineEnd, lt, gt);
    FieldsAgree(u, v, n, |header|, lt, gt, lineEnd);
  }

  /** A parsed line followed by any text parses the same way. */
  lemma SignatureExtended(line: seq<char>, rest: seq<char>, header: seq<char>, ender: char)
    requires ParseSignature(line, header, ender).Ok? && ParseSignature(line, header, ender).value.1 == |line|
    ensures Parsed(ParseSignature(line + rest, header, ender), ParseSignature(line, header, ender).value.0, |line|)
  {
    assert (line + rest)[..|line|] == line[..|line|];
    SignatureLocal(line, line + rest, header, ender);
  }

  /** Dropping text after its terminator does not change how a line parses. */
  lemma SignaturePrefix(s: seq<char>, header: seq<char>, ender: char, k: nat)
    requires ParseSignature(s, header, ender).Ok? && ParseSignature(s, header, ender).value.1 <= k <= |s|
    ensures Parsed(ParseSignature(s[..k], header, ender),
                   ParseSignature(s, header, ender).value.0, ParseSignature(s, header, ender).value.1)
  {
    var n := ParseSignature(s, header, ender).value.1;
    assert s[..k][..n] == s[..n];
    SignatureLocal(s, s[..k], header, ender);
  }

  // ---------------------------------------------------------------------
  // Assembled lines

  /**
   * An assembled line: the header, a name part, '<', an email part, '>', a
   * tail and the terminator, with `lt`, `gt` and `lineEnd` where the
   * delimiters and the terminator sit.
   */
  ghost predicate Assembled(line: seq<char>, header: seq<char>, name: seq<char>, email: seq<char>, tail: seq<char>,
                            ender: char, lt: nat, gt: nat, lineEnd: nat) {
    && line == header + name + "<" + email + ">" + tail + [ender]
    && lt == |header| + |name| && gt == lt + 1 + |email| && lineEnd == gt + 1 + |tail|
  }

  /** Where the delimiters of an assembled signature line sit. */
  lemma AssembledLine(line: seq<char>, header: seq<char>, name: seq<char>, email: seq<char>, tail: seq<char>,
                      ender: char, lt: nat, gt: nat, lineEnd: nat)
    requires Assembled(line, header, name, email, tail, ender, lt, gt, lineEnd)
    requires ender !in header && ender !in name && ender !in email && ender !in tail
    requires ender != '<' && ender != '>'
    requires '<' !in name && '>' !in email
    ensures Delimiters(line, header, ender) == Some((lineEnd, lt, gt))
  {
    assert forall k | 0 <= k < |header| :: line[k] == header[k];
    assert forall k | |header| <= k < lt :: line[k] == name[k - |header|];
    assert forall k | lt < k < gt :: line[k] == email[k - lt - 1];
    assert forall k | gt < k < lineEnd :: line[k] == tail[k - gt - 1];
    assert Delimited(line, header, ender, lineEnd, lt, gt);
    DelimitersAre(line, header, ender, lineEnd, lt, gt);
  }

  /** The fields of an assembled line are its trimmed name and email and the time of its tail. */
  lemma AssembledFields(line: seq<char>, header: seq<char>, name: seq<char>, email: seq<char>, tail: seq<char>,
                        ender: char, lt: nat, gt: nat, lineEnd: nat)
    requires Assembled(line, header, name, email, tail, ender, lt, gt, lineEnd)
    ensures FieldsBetween(line, |header|, lt, gt, lineEnd) == Signature(Trim(name), Trim(email), ParseWhen(tail))
  {
    assert line[|header|..lt] == name;
    assert line[lt + 1..gt] == email;
    assert line[gt + 1..lineEnd] == tail;
  }

  /**
   * A line made of the header, a name part without '<', '<', an email part
   * without '>', '>' and a tail, then the terminator, parses to the trimmed
   * name, the trimmed email and the time fields of the tail, whatever follows
   * it.
   */
  lemma SignatureAccepts(header: seq<char>, name: seq<char>, email: seq<char>, tail: seq<char>,
                         ender: char, rest: seq<char>)
    requires ender !in header && ender !in name && ender !in email && ender !in tail
    requires ender != '<' && ender != '>'
    requires '<' !in name && '>' !in email
    ensures Parsed(ParseSignature(header + name + "<" + email + ">" + tail + [ender] + rest, header, ender),
                   Signature(Trim(name), Trim(email), ParseWhen(tail)),
                   |header| + |name| + |email| + |tail| + 3)
  {
    var line := header + name + "<" + email + ">" + tail + [ender];
    var lt := |header| + |name|;
    var gt := lt + 1 + |email|;
    var lineEnd := gt + 1 + |tail|;
    assert Assembled(line, header, name, email, tail, ender, lt, gt, lineEnd);
    AssembledLine(line, header, name, email, tail, ender, lt, gt, lineEnd);
    ParseOfDelimiters(line, header, ender, lineEnd, lt, gt);
    AssembledFields(line, header, name, email, tail, ender, lt, gt, lineEnd);
    SignatureExtended(line, rest, header, ender);
  }

  // ---------------------------------------------------------------------
  // Writing signatures

  /** Terminators that cannot be confused with any character a formatted line contains. */
  predicate SafeEnder(ender: char) {
    !IsDigit(ender) && !IsSign(ender) && ender != ' ' && ender != '<' && ender != '>'
  }

  /** A signature that formats to a line reading back as itself. */
  predicate WellFormed(sig: Signature, ender: char) {
    && IsTrimmed(sig.name) && '<' !in sig.name && ender !in sig.name
    && IsTrimmed(sig.email) && '>' !in sig.email && ender !in sig.email
    && 0 <= sig.when.seconds <= MaxSeconds && ValidOffset(sig.when.offset)
  }

  /** The canonical line `<header><name> <<email>> <seconds> <zone><ender>`. */
  function FormatSignature(header: seq<char>, sig: Signature, ender: char): (line: seq<char>)
    requires WellFormed(sig, ender)
    ensures |line| > 0 && line[|line| - 1] == ender
  {
    header + sig.name + " <" + sig.email + "> " + ShowNat(sig.when.seconds) + " "
      + FormatZone(sig.when.offset) + [ender]
  }

  /** A formatted line is an assembled one: the name part carries the space before '<' and the tail the time fields. */
  lemma FormattedAssembled(header: seq<char>, sig: Signature, ender: char, name: seq<char>, tail: seq<char>)
    requires WellFormed(sig, ender)
    requires name == sig.name + " " && tail == " " + ShowNat(sig.when.seconds) + " " + FormatZone(sig.when.offset)
    ensures FormatSignature(header, sig, ender) == header + name + "<" + sig.email + ">" + tail + [ender]
  {
  }

  /** The name part of a formatted line reads back as the name. */
  lemma FormattedName(sig: Signature, ender: char, name: seq<char>)
    requires WellFormed(sig, ender) && SafeEnder(ender) && name == sig.name + " "
    ensures ender !in name && '<' !in name && Trim(name) == sig.name
  {
    TrimPadded([], sig.name, " ");
    assert [] + sig.name + " " == name;
  }

  /** The email part of a formatted line reads back as the email. */
  lemma FormattedEmail(sig: Signature, ender: char)
    requires WellFormed(sig, ender)
    ensures Trim(sig.email) == sig.email
  {
    TrimPadded([], sig.email, []);
    assert [] + sig.email + [] == sig.email;
  }

  /** The tail of a formatted line reads back as the time. */
  lemma FormattedTime(sig: Signature, ender: char, tail: seq<char>)
    requires WellFormed(sig, ender) && SafeEnder(ender)
    requires tail == " " + ShowNat(sig.when.seconds) + " " + FormatZone(sig.when.offset)
    ensures ender !in tail && ParseWhen(tail) == sig.when
  {
    var seconds := ShowNat(sig.when.seconds);
    var zone := FormatZone(sig.when.offset);
    assert ender !in seconds && ender !in zone;
    assert tail == [' '] + seconds + " " + zone + [];
    WhenOfSecondsAndZone([' '], seconds, " ", zone, []);
    SecondsRoundTrip(sig.when.seconds);
    ZoneRoundTrip(sig.when.offset);
  }

  /** A well-formed signature survives formatting and parsing, whatever follows its line. */
  lemma SignatureRoundTrip(header: seq<char>, sig: Signature, ender: char, rest: seq<char>)
    requires WellFormed(sig, ender) && SafeEnder(ender) && ender !in header
    ensures var line := FormatSignature(header, sig, ender);
            Parsed(ParseSignature(line + rest, header, ender), sig, |line|)
  {
    var name := sig.name + " ";
    var tail := " " + ShowNat(sig.when.seconds) + " " + FormatZone(sig.when.offset);
    FormattedAssembled(header, sig, ender, name, tail);
    FormattedName(sig, ender, name);
    FormattedEmail(sig, ender);
    FormattedTime(sig, ender, tail);
    SignatureAccepts(header, name, sig.email, tail, ender, rest);
  }
}
