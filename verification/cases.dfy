/**
 * The rows of the parser test tables in tests-clar/commit/parse.c, each
 * stated as a fact about the model. A row is written as a concatenation of
 * short literal pieces (the header, the name, the '<', ...) that spell the
 * table's string exactly; the predicates say what the test loop asserts of
 * the row, with success meaning a return code >= 0.
 */
module Cases {
  import opened Results
  import opened Text
  import opened Oid
  import opened Signatures
  import opened Commits

  // ---------------------------------------------------------------------
  // Header lines

  /** What the header test asserts of a passing row: success, with the cursor at the end of the line. */
  predicate HeaderPasses(line: seq<char>, header: seq<char>) {
    var r := ParseOidLine(line, header);
    ReturnCode(r) >= 0 && r.value.1 == |line|
  }

  /** What the header test asserts of a failing row. */
  predicate HeaderFails(line: seq<char>, header: seq<char>) {
    ReturnCode(ParseOidLine(line, header)) < 0
  }

  /** A header, 40 hexadecimal digits and a newline pass, and the cursor ends after the newline. */
  lemma HeaderAccepted(header: seq<char>, hex: seq<char>)
    requires |hex| == HexSize && AllHex(hex)
    ensures HeaderPasses(header + hex + "\n", header)
  {
    OidLineAccepts(header, hex, []);
    assert header + hex + "\n" + [] == header + hex + "\n";
  }

  lemma PassingHeader0()
    ensures HeaderPasses("parent " + "05452d6349abcd67aa396dfb28660d765d8b2a36" + "\n", "parent ")
  {
    HeaderAccepted("parent ", "05452d6349abcd67aa396dfb28660d765d8b2a36");
  }

  lemma PassingHeader1()
    ensures HeaderPasses("tree " + "05452d6349abcd67aa396dfb28660d765d8b2a36" + "\n", "tree ")
  {
    HeaderAccepted("tree ", "05452d6349abcd67aa396dfb28660d765d8b2a36");
  }

  /** Any header text will do, as long as the line starts with it. */
  lemma PassingHeader2()
    ensures HeaderPasses("random_heading " + "05452d6349abcd67aa396dfb28660d765d8b2a36" + "\n", "random_heading ")
  {
    HeaderAccepted("random_heading ", "05452d6349abcd67aa396dfb28660d765d8b2a36");
  }

  /** The header carries its own separator: none is implied after it. */
  lemma PassingHeader3()
    ensures HeaderPasses("stuck_heading" + "05452d6349abcd67aa396dfb28660d765d8b2a36" + "\n", "stuck_heading")
  {
    HeaderAccepted("stuck_heading", "05452d6349abcd67aa396dfb28660d765d8b2a36");
  }

  /** Upper-case hexadecimal digits are accepted. */
  lemma PassingHeader4()
    ensures HeaderPasses("tree " + "5F4BEFFC0759261D015AA63A3A85613FF2F235DE" + "\n", "tree ")
  {
    HeaderAccepted("tree ", "5F4BEFFC0759261D015AA63A3A85613FF2F235DE");
  }

  lemma PassingHeader5()
    ensures HeaderPasses("tree " + "1A669B8AB81B5EB7D9DB69562D34952A38A9B504" + "\n", "tree ")
  {
    HeaderAccepted("tree ", "1A669B8AB81B5EB7D9DB69562D34952A38A9B504");
  }

  lemma PassingHeader6()
    ensures HeaderPasses("tree " + "5B20DCC6110FCC75D31C6CEDEBD7F43ECA65B503" + "\n", "tree ")
  {
    HeaderAccepted("tree ", "5B20DCC6110FCC75D31C6CEDEBD7F43ECA65B503");
  }

  lemma PassingHeader7()
    ensures HeaderPasses("tree " + "173E7BF00EA5C33447E99E6C1255954A13026BE4" + "\n", "tree ")
  {
    HeaderAccepted("tree ", "173E7BF00EA5C33447E99E6C1255954A13026BE4");
  }

  /**
   * The failing header rows: no newline, no header, no space after "parent",
   * a short id, a doubled space, a non-hexadecimal digit (with and without
   * extra digits), and empty lines.
   */
  lemma FailingHeaders()
    ensures HeaderFails("parent " + "05452d6349abcd67aa396dfb28660d765d8b2a36", "parent ")
    ensures HeaderFails("05452d6349abcd67aa396dfb28660d765d8b2a36" + "\n", "tree ")
    ensures HeaderFails("parent" + "05452d6349abcd67aa396dfb28660d765d8b2a6a" + "\n", "parent ")
    ensures HeaderFails("parent " + "05452d6349abcd67aa396dfb280d765d8b2a6" + "\n", "parent ")
    ensures HeaderFails("tree " + " " + "05452d6349abcd67aa396dfb28660d765d8b2a36" + "\n", "tree ")
    ensures HeaderFails("parent " + "0545" + "x" + "d6349abcd67aa396dfb28660d765d8b2a36" + "\n", "parent ")
    ensures HeaderFails("parent " + "0545" + "x" + "d6349abcd67aa396dfb28660d765d8b2a36" + "FF" + "\n", "parent ")
    ensures HeaderFails("", "tree ")
    ensures HeaderFails("", "")
  {
    var s := "parent " + "0545" + "x" + "d6349abcd67aa396dfb28660d765d8b2a36" + "\n";
    assert s[7..47][4] == 'x';
  }

  // ---------------------------------------------------------------------
  // Signature lines

  /**
   * What the signature test asserts of a passing row: success, and the name,
   * email, timestamp and offset the row lists.
   */
  predicate SignaturePasses(line: seq<char>, header: seq<char>, name: seq<char>, email: seq<char>, time: int, offset: int) {
    var r := ParseSignature(line, header, '\n');
    ReturnCode(r) >= 0 && r.value.0 == Signature(name, email, Time(time, offset))
  }

  /** What the signature test asserts of a failing row. */
  predicate SignatureFails(line: seq<char>, header: seq<char>) {
    ReturnCode(ParseSignature(line, header, '\n')) < 0
  }

  /** `s` holds neither a newline nor `c`. */
  predicate Avoiding(s: seq<char>, c: char) {
    forall i | 0 <= i < |s| :: s[i] != '\n' && s[i] != c
  }

  lemma AvoidingJoin(a: seq<char>, b: seq<char>, c: char)
    requires Avoiding(a, c) && Avoiding(b, c)
    ensures Avoiding(a + b, c)
  {
    assert forall i | |a| <= i < |a + b| :: (a + b)[i] == b[i - |a|];
  }

  /**
   * A row made of the header, a name part without '<', '<', an email part
   * without '>', '>' and a tail, then a newline, passes with the trimmed name,
   * the trimmed email and the time fields of the tail.
   */
  lemma SignatureRow(header: seq<char>, name: seq<char>, email: seq<char>, tail: seq<char>, sig: Signature)
    requires Avoiding(header, '\n') && Avoiding(name, '<') && Avoiding(email, '>') && Avoiding(tail, '\n')
    requires sig == Signature(Trim(name), Trim(email), ParseWhen(tail))
    ensures SignaturePasses(header + name + "<" + email + ">" + tail + "\n", header,
                            sig.name, sig.email, sig.when.seconds, sig.when.offset)
  {
    SignatureAccepts(header, name, email, tail, '\n', []);
    assert header + name + "<" + email + ">" + tail + ['\n'] + [] == header + name + "<" + email + ">" + tail + "\n";
  }

  lemma TrimRight(core: seq<char>, trail: seq<char>)
    requires IsTrimmed(core) && AllSpace(trail)
    ensures Trim(core + trail) == core
  {
    TrimPadded([], core, trail);
    assert [] + core + trail == core + trail;
  }

  lemma TrimLeft(lead: seq<char>, core: seq<char>)
    requires AllSpace(lead) && IsTrimmed(core)
    ensures Trim(lead + core) == core
  {
    TrimPadded(lead, core, []);
    assert lead + core + [] == lead + core;
  }

  lemma TrimBlank(s: seq<char>)
    requires AllSpace(s)
    ensures Trim(s) == []
  {
    TrimPadded(s, [], []);
    assert s + [] + [] == s;
  }

  lemma TrimNone(s: seq<char>)
    requires IsTrimmed(s)
    ensures Trim(s) == s
  {
    TrimPadded([], s, []);
    assert [] + s + [] == s;
  }

  /** `WhenOfSecondsOnly` for a timestamp that ends the tail. */
  lemma WhenOfSecondsAtEnd(pre: seq<char>, word: seq<char>)
    requires EndsAtWordBoundary(pre) && |word| > 0 && NoSpace(word) && !IsSign(word[0])
    ensures ParseWhen(pre + word)
         == match ParseSeconds(word) case Some(seconds) => Time(seconds, 0) case None => Time(0, 0)
  {
    WhenOfSecondsOnly(pre, word, []);
    assert pre + word + [] == pre + word;
  }

  /** `WhenOfSecondsAndZone` for a zone that ends the tail. */
  lemma WhenOfZoneAtEnd(pre: seq<char>, seconds: seq<char>, gap: seq<char>, zone: seq<char>)
    requires EndsAtWordBoundary(pre) && |seconds| > 0 && NoSpace(seconds)
    requires |gap| > 0 && AllSpace(gap)
    requires |zone| > 0 && NoSpace(zone) && IsSign(zone[0])
    ensures ParseWhen(pre + seconds + gap + zone)
         == match (ParseSeconds(seconds), ParseZone(zone))
            case (Some(s), Some(z)) => Time(s, z)
            case _ => Time(0, 0)
  {
    WhenOfSecondsAndZone(pre, seconds, gap, zone, []);
    assert pre + seconds + gap + zone + [] == pre + seconds + gap + zone;
  }

  /** `WhenOfSecondsAndZone` for a tail that starts with the timestamp. */
  lemma WhenOfUnindented(seconds: seq<char>, gap: seq<char>, zone: seq<char>, trail: seq<char>)
    requires |seconds| > 0 && NoSpace(seconds)
    requires |gap| > 0 && AllSpace(gap)
    requires |zone| > 0 && NoSpace(zone) && IsSign(zone[0]) && AllSpace(trail)
    ensures ParseWhen(seconds + gap + zone + trail)
         == match (ParseSeconds(seconds), ParseZone(zone))
            case (Some(s), Some(z)) => Time(s, z)
            case _ => Time(0, 0)
  {
    WhenOfSecondsAndZone([], seconds, gap, zone, trail);
    assert [] + seconds + gap + zone + trail == seconds + gap + zone + trail;
  }

  lemma ZoneUtc()
    ensures ParseZone("+0000") == Some(0)
  {
    assert "+0000"[1..] == "0000";
    assert AllDigits("0000");
  }

  lemma ZoneEast()
    ensures ParseZone("+0100") == Some(60)
  {
    assert "+0100"[1..] == "0100";
    assert AllDigits("0100");
  }

  lemma ZoneWest()
    ensures ParseZone("-0100") == Some(-60)
  {
    assert "-0100"[1..] == "0100";
    assert AllDigits("0100");
  }

  lemma ZoneEast1020()
    ensures ParseZone("+1020") == Some(620)
  {
    assert "+1020"[1..] == "1020";
    assert AllDigits("1020");
  }

  lemma ZoneWest0700()
    ensures ParseZone("-0700") == Some(-420)
  {
    assert "-0700"[1..] == "0700";
    assert AllDigits("0700");
  }

  lemma Seconds12345()
    ensures ParseSeconds("12345") == Some(12345)
  {
    assert DecimalPrefix("12345", 1) == 1;
    assert DecimalPrefix("12345", 2) == 12;
    assert DecimalPrefix("12345", 3) == 123;
    assert DecimalPrefix("12345", 4) == 1234;
  }

  lemma Seconds123456()
    ensures ParseSeconds("123456") == Some(123456)
  {
    assert DecimalPrefix("123456", 1) == 1;
    assert DecimalPrefix("123456", 2) == 12;
    assert DecimalPrefix("123456", 3) == 123;
    assert DecimalPrefix("123456", 4) == 1234;
    assert DecimalPrefix("123456", 5) == 12345;
  }

  lemma Seconds231301()
    ensures ParseSeconds("231301") == Some(231301)
  {
    assert DecimalPrefix("231301", 1) == 2;
    assert DecimalPrefix("231301", 2) == 23;
    assert DecimalPrefix("231301", 3) == 231;
    assert DecimalPrefix("231301", 4) == 2313;
    assert DecimalPrefix("231301", 5) == 23130;
  }

  lemma Seconds1234567890()
    ensures ParseSeconds("1234567890") == Some(1234567890)
  {
    DigitsOfLongTime();
    SecondsPrefix12345678();
    assert DecimalPrefix("1234567890", 9) == 123456789;
    assert DecimalValue("1234567890") == 1234567890;
    SecondsOfValue("1234567890", 1234567890);
  }

  /** A non-empty numeral whose value fits is read as that value. */
  lemma SecondsOfValue(tok: seq<char>, v: nat)
    requires |tok| > 0 && AllDigits(tok) && DecimalValue(tok) == v && v <= MaxSeconds
    ensures ParseSeconds(tok) == Some(v)
  {
  }

  lemma SecondsPrefix12345678()
    ensures DecimalPrefix("1234567890", 8) == 12345678
  {
    DigitsOfLongTime();
    SecondsPrefix12345();
    assert DecimalPrefix("1234567890", 6) == 123456;
    assert DecimalPrefix("1234567890", 7) == 1234567;
  }

  lemma DigitsOfLongTime()
    ensures AllDigits("1234567890")
  {
  }

  lemma SecondsPrefix12345()
    ensures DecimalPrefix("1234567890", 5) == 12345
  {
    DigitsOfLongTime();
    assert DecimalPrefix("1234567890", 1) == 1;
    assert DecimalPrefix("1234567890", 2) == 12;
    assert DecimalPrefix("1234567890", 3) == 123;
    assert DecimalPrefix("1234567890", 4) == 1234;
  }

  /** The headers of the signature rows hold no newline. */
  lemma HeaderTexts()
    ensures Avoiding("author ", '\n') && Avoiding("committer ", '\n')
  {
  }

  lemma NameVicent()
    ensures Avoiding(("Vicent Marti" + " "), '<') && Trim(("Vicent Marti" + " ")) == "Vicent Marti"
  {
    TrimRight("Vicent Marti", " ");
  }

  lemma NameLong()
    ensures Avoiding(("Vicent Marti with an " + "outrageously long name " + "which will probably " + "overflow the buffer" + " "), '<')
    ensures Trim(("Vicent Marti with an " + "outrageously long name " + "which will probably " + "overflow the buffer" + " "))
         == "Vicent Marti with an " + "outrageously long name " + "which will probably " + "overflow the buffer"
  {
    var a, b, c, d := "Vicent Marti with an ", "outrageously long name ", "which will probably ", "overflow the buffer";
    assert Avoiding(a, '<') && Avoiding(b, '<') && Avoiding(c, '<') && Avoiding(d, '<') && Avoiding(" ", '<');
    AvoidingJoin(a, b, '<');
    AvoidingJoin(a + b, c, '<');
    AvoidingJoin(a + b + c, d, '<');
    AvoidingJoin(a + b + c + d, " ", '<');
    TrimRight(a + b + c + d, " ");
  }

  lemma NameEmpty()
    ensures Avoiding("", '<') && Trim("") == ""
  {
    TrimBlank("");
  }

  lemma NameOneSpace()
    ensures Avoiding(" ", '<') && Trim(" ") == ""
  {
    TrimBlank(" ");
  }

  lemma NameTwoSpaces()
    ensures Avoiding("  ", '<') && Trim("  ") == ""
  {
    TrimBlank("  ");
  }

  lemma NameFoo()
    ensures Avoiding("foo", '<') && Trim("foo") == "foo"
  {
    TrimNone("foo");
  }

  lemma NameIndentedFoo()
    ensures Avoiding(("   " + "foo"), '<') && Trim(("   " + "foo")) == "foo"
  {
    TrimLeft("   ", "foo");
  }

  lemma NameThor()
    ensures Avoiding(("A U Thor" + " "), '<') && Trim(("A U Thor" + " ")) == "A U Thor"
  {
    TrimRight("A U Thor", " ");
  }

  lemma NameThorBracket()
    ensures Avoiding(("A U Thor>" + " "), '<') && Trim(("A U Thor>" + " ")) == "A U Thor>"
  {
    TrimRight("A U Thor>", " ");
  }

  lemma EmailTanoku()
    ensures Avoiding("tanoku@gmail.com", '>') && Trim("tanoku@gmail.com") == "tanoku@gmail.com"
  {
    TrimNone("tanoku@gmail.com");
  }

  lemma EmailEmpty()
    ensures Avoiding("", '>') && Trim("") == ""
  {
    TrimBlank("");
  }

  lemma EmailSpace()
    ensures Avoiding(" ", '>') && Trim(" ") == ""
  {
    TrimBlank(" ");
  }

  lemma EmailBar()
    ensures Avoiding("@bar", '>') && Trim("@bar") == "@bar"
  {
    TrimNone("@bar");
  }

  lemma EmailThor()
    ensures Avoiding("author@example.com", '>') && Trim("author@example.com") == "author@example.com"
  {
    TrimNone("author@example.com");
  }

  lemma EmailLong()
    ensures Avoiding(("tanokuwithaveryveryvery" + "longemailwhichwill" + "probablyvoverflowthe" + "emailbuffer@gmail.com"), '>')
    ensures Trim(("tanokuwithaveryveryvery" + "longemailwhichwill" + "probablyvoverflowthe" + "emailbuffer@gmail.com"))
         == "tanokuwithaveryveryvery" + "longemailwhichwill" + "probablyvoverflowthe" + "emailbuffer@gmail.com"
  {
    var a, b, c, d := "tanokuwithaveryveryvery", "longemailwhichwill", "probablyvoverflowthe", "emailbuffer@gmail.com";
    assert Avoiding(a, '>') && Avoiding(b, '>') && Avoiding(c, '>') && Avoiding(d, '>');
    AvoidingJoin(a, b, '>');
    AvoidingJoin(a + b, c, '>');
    AvoidingJoin(a + b + c, d, '>');
    TrimNone(a + b + c + d);
  }

  lemma When12345()
    ensures Avoiding((" " + "12345" + " "), '\n') && ParseWhen((" " + "12345" + " ")) == Time(12345, 0)
  {
    assert Avoiding((" " + "12345" + " "), '\n');
    WhenOfSecondsOnly(" ", "12345", " ");
    Seconds12345();
  }

  lemma When231301East()
    ensures Avoiding((" " + "231301" + " " + "+1020"), '\n') && ParseWhen((" " + "231301" + " " + "+1020")) == Time(231301, 620)
  {
    assert Avoiding((" " + "231301" + " " + "+1020"), '\n');
    WhenOfZoneAtEnd(" ", "231301", " ", "+1020");
    Seconds231301();
    ZoneEast1020();
  }

  lemma WhenUtc()
    ensures Avoiding((" " + "123456" + " " + "+0000" + " "), '\n') && ParseWhen((" " + "123456" + " " + "+0000" + " ")) == Time(123456, 0)
  {
    assert Avoiding((" " + "123456" + " " + "+0000" + " "), '\n');
    WhenOfSecondsAndZone(" ", "123456", " ", "+0000", " ");
    Seconds123456();
    ZoneUtc();
  }

  lemma WhenEast()
    ensures Avoiding((" " + "123456" + " " + "+0100" + " "), '\n') && ParseWhen((" " + "123456" + " " + "+0100" + " ")) == Time(123456, 60)
  {
    assert Avoiding((" " + "123456" + " " + "+0100" + " "), '\n');
    WhenOfSecondsAndZone(" ", "123456", " ", "+0100", " ");
    Seconds123456();
    ZoneEast();
  }

  lemma WhenWest()
    ensures Avoiding((" " + "123456" + " " + "-0100" + " "), '\n') && ParseWhen((" " + "123456" + " " + "-0100" + " ")) == Time(123456, -60)
  {
    assert Avoiding((" " + "123456" + " " + "-0100" + " "), '\n');
    WhenOfSecondsAndZone(" ", "123456", " ", "-0100", " ");
    Seconds123456();
    ZoneWest();
  }

  lemma WhenWestUnspaced()
    ensures Avoiding(("123456" + " " + "-0100" + " "), '\n') && ParseWhen(("123456" + " " + "-0100" + " ")) == Time(123456, -60)
  {
    assert Avoiding(("123456" + " " + "-0100" + " "), '\n');
    WhenOfUnindented("123456", " ", "-0100", " ");
    Seconds123456();
    ZoneWest();
  }

  lemma WhenBlank()
    ensures Avoiding("", '\n') && ParseWhen("") == Time(0, 0)
  {
    assert Avoiding("", '\n');
    WhenOfBlank("");
  }

  lemma WhenZoneHoursTooLarge()
    ensures Avoiding((" " + "123456" + " " + "-1500" + " "), '\n') && ParseWhen((" " + "123456" + " " + "-1500" + " ")) == Time(0, 0)
  {
    assert Avoiding((" " + "123456" + " " + "-1500" + " "), '\n');
    WhenOfSecondsAndZone(" ", "123456", " ", "-1500", " ");
  }

  lemma WhenZoneMinutesTooLarge()
    ensures Avoiding((" " + "123456" + " " + "+0163" + " "), '\n') && ParseWhen((" " + "123456" + " " + "+0163" + " ")) == Time(0, 0)
  {
    assert Avoiding((" " + "123456" + " " + "+0163" + " "), '\n');
    WhenOfSecondsAndZone(" ", "123456", " ", "+0163", " ");
  }

  lemma WhenNotANumber()
    ensures Avoiding((" " + "notime" + " "), '\n') && ParseWhen((" " + "notime" + " ")) == Time(0, 0)
  {
    assert Avoiding((" " + "notime" + " "), '\n');
    assert !IsDigit("notime"[0]);
    WhenOfSecondsOnly(" ", "notime", " ");
  }

  lemma WhenNotAZone()
    ensures Avoiding((" " + "123456" + " " + "notimezone" + " "), '\n') && ParseWhen((" " + "123456" + " " + "notimezone" + " ")) == Time(0, 0)
  {
    assert Avoiding((" " + "123456" + " " + "notimezone" + " "), '\n');
    assert !IsDigit("notimezone"[0]);
    WhenOfSecondsOnly(" " + "123456" + " ", "notimezone", " ");
  }

  lemma WhenNotANumberWithZone()
    ensures Avoiding((" " + "notime" + " " + "+0100"), '\n') && ParseWhen((" " + "notime" + " " + "+0100")) == Time(0, 0)
  {
    assert Avoiding((" " + "notime" + " " + "+0100"), '\n');
    assert !IsDigit("notime"[0]);
    WhenOfZoneAtEnd(" ", "notime", " ", "+0100");
  }

  lemma WhenAfterSecondPair()
    ensures Avoiding((",  C O. Miter " + "<comiter@example.com> " + "1234567890" + " " + "-0700"), '\n') && ParseWhen((",  C O. Miter " + "<comiter@example.com> " + "1234567890" + " " + "-0700")) == Time(1234567890, -420)
  {
    assert Avoiding((",  C O. Miter " + "<comiter@example.com> " + "1234567890" + " " + "-0700"), '\n');
    WhenOfZoneAtEnd(",  C O. Miter " + "<comiter@example.com> ", "1234567890", " ", "-0700");
    Seconds1234567890();
    ZoneWest0700();
  }

  lemma WhenAfterTextWithZone()
    ensures Avoiding((" and others " + "1234567890" + " " + "-0700"), '\n') && ParseWhen((" and others " + "1234567890" + " " + "-0700")) == Time(1234567890, -420)
  {
    assert Avoiding((" and others " + "1234567890" + " " + "-0700"), '\n');
    WhenOfZoneAtEnd(" and others ", "1234567890", " ", "-0700");
    Seconds1234567890();
    ZoneWest0700();
  }

  lemma WhenAfterText()
    ensures Avoiding((" and others " + "1234567890"), '\n') && ParseWhen((" and others " + "1234567890")) == Time(1234567890, 0)
  {
    assert Avoiding((" and others " + "1234567890"), '\n');
    WhenOfSecondsAtEnd(" and others ", "1234567890");
    Seconds1234567890();
  }

  /** A name, an email, a timestamp and no zone. (tests-clar/commit/parse.c:84) */
  lemma PassingSignature0()
    ensures SignaturePasses("author " + ("Vicent Marti" + " ") + "<" + "tanoku@gmail.com" + ">" + (" " + "12345" + " ") + "\n",
                            "author ", "Vicent Marti", "tanoku@gmail.com", 12345, 0)
  {
    HeaderTexts();
    NameVicent();
    EmailTanoku();
    When12345();
    SignatureRow("author ", ("Vicent Marti" + " "), "tanoku@gmail.com", (" " + "12345" + " "),
                 Signature("Vicent Marti", "tanoku@gmail.com", Time(12345, 0)));
  }

  /** An empty email. (tests-clar/commit/parse.c:85) */
  lemma PassingSignature1()
    ensures SignaturePasses("author " + ("Vicent Marti" + " ") + "<" + "" + ">" + (" " + "12345" + " ") + "\n",
                            "author ", "Vicent Marti", "", 12345, 0)
  {
    HeaderTexts();
    NameVicent();
    EmailEmpty();
    When12345();
    SignatureRow("author ", ("Vicent Marti" + " "), "", (" " + "12345" + " "),
                 Signature("Vicent Marti", "", Time(12345, 0)));
  }

  /** A positive zone: +1020 is 620 minutes. (tests-clar/commit/parse.c:86) */
  lemma PassingSignature2()
    ensures SignaturePasses("author " + ("Vicent Marti" + " ") + "<" + "tanoku@gmail.com" + ">" + (" " + "231301" + " " + "+1020") + "\n",
                            "author ", "Vicent Marti", "tanoku@gmail.com", 231301, 620)
  {
    HeaderTexts();
    NameVicent();
    EmailTanoku();
    When231301East();
    SignatureRow("author ", ("Vicent Marti" + " "), "tanoku@gmail.com", (" " + "231301" + " " + "+1020"),
                 Signature("Vicent Marti", "tanoku@gmail.com", Time(231301, 620)));
  }

  /** A long name. (tests-clar/commit/parse.c:87) */
  lemma PassingSignature3()
    ensures SignaturePasses("author " + ("Vicent Marti with an " + "outrageously long name " + "which will probably " + "overflow the buffer" + " ") + "<" + "tanoku@gmail.com" + ">" + (" " + "12345" + " ") + "\n",
                            "author ", "Vicent Marti with an " + "outrageously long name " + "which will probably " + "overflow the buffer", "tanoku@gmail.com", 12345, 0)
  {
    HeaderTexts();
    NameLong();
    EmailTanoku();
    When12345();
    SignatureRow("author ", ("Vicent Marti with an " + "outrageously long name " + "which will probably " + "overflow the buffer" + " "), "tanoku@gmail.com", (" " + "12345" + " "),
                 Signature("Vicent Marti with an " + "outrageously long name " + "which will probably " + "overflow the buffer", "tanoku@gmail.com", Time(12345, 0)));
  }

  /** A long email. (tests-clar/commit/parse.c:88) */
  lemma PassingSignature4()
    ensures SignaturePasses("author " + ("Vicent Marti" + " ") + "<" + ("tanokuwithaveryveryvery" + "longemailwhichwill" + "probablyvoverflowthe" + "emailbuffer@gmail.com") + ">" + (" " + "12345" + " ") + "\n",
                            "author ", "Vicent Marti", "tanokuwithaveryveryvery" + "longemailwhichwill" + "probablyvoverflowthe" + "emailbuffer@gmail.com", 12345, 0)
  {
    HeaderTexts();
    NameVicent();
    EmailLong();
    When12345();
    SignatureRow("author ", ("Vicent Marti" + " "), ("tanokuwithaveryveryvery" + "longemailwhichwill" + "probablyvoverflowthe" + "emailbuffer@gmail.com"), (" " + "12345" + " "),
                 Signature("Vicent Marti", "tanokuwithaveryveryvery" + "longemailwhichwill" + "probablyvoverflowthe" + "emailbuffer@gmail.com", Time(12345, 0)));
  }

  /** The zone +0000. (tests-clar/commit/parse.c:89) */
  lemma PassingSignature5()
    ensures SignaturePasses("committer " + ("Vicent Marti" + " ") + "<" + "tanoku@gmail.com" + ">" + (" " + "123456" + " " + "+0000" + " ") + "\n",
                            "committer ", "Vicent Marti", "tanoku@gmail.com", 123456, 0)
  {
    HeaderTexts();
    NameVicent();
    EmailTanoku();
    WhenUtc();
    SignatureRow("committer ", ("Vicent Marti" + " "), "tanoku@gmail.com", (" " + "123456" + " " + "+0000" + " "),
                 Signature("Vicent Marti", "tanoku@gmail.com", Time(123456, 0)));
  }

  /** The zone +0100 is 60 minutes. (tests-clar/commit/parse.c:90) */
  lemma PassingSignature6()
    ensures SignaturePasses("committer " + ("Vicent Marti" + " ") + "<" + "tanoku@gmail.com" + ">" + (" " + "123456" + " " + "+0100" + " ") + "\n",
                            "committer ", "Vicent Marti", "tanoku@gmail.com", 123456, 60)
  {
    HeaderTexts();
    NameVicent();
    EmailTanoku();
    WhenEast();
    SignatureRow("committer ", ("Vicent Marti" + " "), "tanoku@gmail.com", (" " + "123456" + " " + "+0100" + " "),
                 Signature("Vicent Marti", "tanoku@gmail.com", Time(123456, 60)));
  }

  /** The zone -0100 is -60 minutes. (tests-clar/commit/parse.c:91) */
  lemma PassingSignature7()
    ensures SignaturePasses("committer " + ("Vicent Marti" + " ") + "<" + "tanoku@gmail.com" + ">" + (" " + "123456" + " " + "-0100" + " ") + "\n",
                            "committer ", "Vicent Marti", "tanoku@gmail.com", 123456, -60)
  {
    HeaderTexts();
    NameVicent();
    EmailTanoku();
    WhenWest();
    SignatureRow("committer ", ("Vicent Marti" + " "), "tanoku@gmail.com", (" " + "123456" + " " + "-0100" + " "),
                 Signature("Vicent Marti", "tanoku@gmail.com", Time(123456, -60)));
  }

  /** No name: the '<' follows the header at once. (tests-clar/commit/parse.c:93) */
  lemma PassingSignature8()
    ensures SignaturePasses("committer " + "" + "<" + "tanoku@gmail.com" + ">" + (" " + "123456" + " " + "-0100" + " ") + "\n",
                            "committer ", "", "tanoku@gmail.com", 123456, -60)
  {
    HeaderTexts();
    NameEmpty();
    EmailTanoku();
    WhenWest();
    SignatureRow("committer ", "", "tanoku@gmail.com", (" " + "123456" + " " + "-0100" + " "),
                 Signature("", "tanoku@gmail.com", Time(123456, -60)));
  }

  /** No name, one space before the '<'. (tests-clar/commit/parse.c:95) */
  lemma PassingSignature9()
    ensures SignaturePasses("committer " + " " + "<" + "tanoku@gmail.com" + ">" + (" " + "123456" + " " + "-0100" + " ") + "\n",
                            "committer ", "", "tanoku@gmail.com", 123456, -60)
  {
    HeaderTexts();
    NameOneSpace();
    EmailTanoku();
    WhenWest();
    SignatureRow("committer ", " ", "tanoku@gmail.com", (" " + "123456" + " " + "-0100" + " "),
                 Signature("", "tanoku@gmail.com", Time(123456, -60)));
  }

  /** No name, two spaces before the '<'. (tests-clar/commit/parse.c:97) */
  lemma PassingSignature10()
    ensures SignaturePasses("committer " + "  " + "<" + "tanoku@gmail.com" + ">" + (" " + "123456" + " " + "-0100" + " ") + "\n",
                            "committer ", "", "tanoku@gmail.com", 123456, -60)
  {
    HeaderTexts();
    NameTwoSpaces();
    EmailTanoku();
    WhenWest();
    SignatureRow("committer ", "  ", "tanoku@gmail.com", (" " + "123456" + " " + "-0100" + " "),
                 Signature("", "tanoku@gmail.com", Time(123456, -60)));
  }

  /** An empty email. (tests-clar/commit/parse.c:99) */
  lemma PassingSignature11()
    ensures SignaturePasses("committer " + ("Vicent Marti" + " ") + "<" + "" + ">" + (" " + "123456" + " " + "-0100" + " ") + "\n",
                            "committer ", "Vicent Marti", "", 123456, -60)
  {
    HeaderTexts();
    NameVicent();
    EmailEmpty();
    WhenWest();
    SignatureRow("committer ", ("Vicent Marti" + " "), "", (" " + "123456" + " " + "-0100" + " "),
                 Signature("Vicent Marti", "", Time(123456, -60)));
  }

  /** An email of one space trims to empty. (tests-clar/commit/parse.c:101) */
  lemma PassingSignature12()
    ensures SignaturePasses("committer " + ("Vicent Marti" + " ") + "<" + " " + ">" + (" " + "123456" + " " + "-0100" + " ") + "\n",
                            "committer ", "Vicent Marti", "", 123456, -60)
  {
    HeaderTexts();
    NameVicent();
    EmailSpace();
    WhenWest();
    SignatureRow("committer ", ("Vicent Marti" + " "), " ", (" " + "123456" + " " + "-0100" + " "),
                 Signature("Vicent Marti", "", Time(123456, -60)));
  }

  /** Empty name and email. (tests-clar/commit/parse.c:103) */
  lemma PassingSignature13()
    ensures SignaturePasses("committer " + "" + "<" + "" + ">" + (" " + "123456" + " " + "-0100" + " ") + "\n",
                            "committer ", "", "", 123456, -60)
  {
    HeaderTexts();
    NameEmpty();
    EmailEmpty();
    WhenWest();
    SignatureRow("committer ", "", "", (" " + "123456" + " " + "-0100" + " "),
                 Signature("", "", Time(123456, -60)));
  }

  /** Empty name and email, a space before the '<'. (tests-clar/commit/parse.c:105) */
  lemma PassingSignature14()
    ensures SignaturePasses("committer " + " " + "<" + "" + ">" + (" " + "123456" + " " + "-0100" + " ") + "\n",
                            "committer ", "", "", 123456, -60)
  {
    HeaderTexts();
    NameOneSpace();
    EmailEmpty();
    WhenWest();
    SignatureRow("committer ", " ", "", (" " + "123456" + " " + "-0100" + " "),
                 Signature("", "", Time(123456, -60)));
  }

  /** Empty name and email, spaces on both sides. (tests-clar/commit/parse.c:107) */
  lemma PassingSignature15()
    ensures SignaturePasses("committer " + " " + "<" + " " + ">" + (" " + "123456" + " " + "-0100" + " ") + "\n",
                            "committer ", "", "", 123456, -60)
  {
    HeaderTexts();
    NameOneSpace();
    EmailSpace();
    WhenWest();
    SignatureRow("committer ", " ", " ", (" " + "123456" + " " + "-0100" + " "),
                 Signature("", "", Time(123456, -60)));
  }

  /** No space before the '<'. (tests-clar/commit/parse.c:109) */
  lemma PassingSignature16()
    ensures SignaturePasses("committer " + "foo" + "<" + "@bar" + ">" + (" " + "123456" + " " + "-0100" + " ") + "\n",
                            "committer ", "foo", "@bar", 123456, -60)
  {
    HeaderTexts();
    NameFoo();
    EmailBar();
    WhenWest();
    SignatureRow("committer ", "foo", "@bar", (" " + "123456" + " " + "-0100" + " "),
                 Signature("foo", "@bar", Time(123456, -60)));
  }

  /** Leading spaces in the name, no space after the '>'. (tests-clar/commit/parse.c:111) */
  lemma PassingSignature17()
    ensures SignaturePasses("committer " + ("   " + "foo") + "<" + "@bar" + ">" + ("123456" + " " + "-0100" + " ") + "\n",
                            "committer ", "foo", "@bar", 123456, -60)
  {
    HeaderTexts();
    NameIndentedFoo();
    EmailBar();
    WhenWestUnspaced();
    SignatureRow("committer ", ("   " + "foo"), "@bar", ("123456" + " " + "-0100" + " "),
                 Signature("foo", "@bar", Time(123456, -60)));
  }

  /** Nothing after the email: the time fields are zero. (tests-clar/commit/parse.c:113) */
  lemma PassingSignature18()
    ensures SignaturePasses("committer " + "" + "<" + "" + ">" + "" + "\n",
                            "committer ", "", "", 0, 0)
  {
    HeaderTexts();
    NameEmpty();
    EmailEmpty();
    WhenBlank();
    SignatureRow("committer ", "", "", "",
                 Signature("", "", Time(0, 0)));
  }

  /** A zone of 15 hours is out of range: both time fields are zero. (tests-clar/commit/parse.c:114) */
  lemma PassingSignature19()
    ensures SignaturePasses("committer " + ("Vicent Marti" + " ") + "<" + "tanoku@gmail.com" + ">" + (" " + "123456" + " " + "-1500" + " ") + "\n",
                            "committer ", "Vicent Marti", "tanoku@gmail.com", 0, 0)
  {
    HeaderTexts();
    NameVicent();
    EmailTanoku();
    WhenZoneHoursTooLarge();
    SignatureRow("committer ", ("Vicent Marti" + " "), "tanoku@gmail.com", (" " + "123456" + " " + "-1500" + " "),
                 Signature("Vicent Marti", "tanoku@gmail.com", Time(0, 0)));
  }

  /** A zone of 63 minutes is out of range: both time fields are zero. (tests-clar/commit/parse.c:115) */
  lemma PassingSignature20()
    ensures SignaturePasses("committer " + ("Vicent Marti" + " ") + "<" + "tanoku@gmail.com" + ">" + (" " + "123456" + " " + "+0163" + " ") + "\n",
                            "committer ", "Vicent Marti", "tanoku@gmail.com", 0, 0)
  {
    HeaderTexts();
    NameVicent();
    EmailTanoku();
    WhenZoneMinutesTooLarge();
    SignatureRow("committer ", ("Vicent Marti" + " "), "tanoku@gmail.com", (" " + "123456" + " " + "+0163" + " "),
                 Signature("Vicent Marti", "tanoku@gmail.com", Time(0, 0)));
  }

  /** A timestamp that is not a number. (tests-clar/commit/parse.c:116) */
  lemma PassingSignature21()
    ensures SignaturePasses("author " + ("Vicent Marti" + " ") + "<" + "tanoku@gmail.com" + ">" + (" " + "notime" + " ") + "\n",
                            "author ", "Vicent Marti", "tanoku@gmail.com", 0, 0)
  {
    HeaderTexts();
    NameVicent();
    EmailTanoku();
    WhenNotANumber();
    SignatureRow("author ", ("Vicent Marti" + " "), "tanoku@gmail.com", (" " + "notime" + " "),
                 Signature("Vicent Marti", "tanoku@gmail.com", Time(0, 0)));
  }

  /** A zone that is not a zone: the last word is read as a timestamp, and is not one. (tests-clar/commit/parse.c:117) */
  lemma PassingSignature22()
    ensures SignaturePasses("author " + ("Vicent Marti" + " ") + "<" + "tanoku@gmail.com" + ">" + (" " + "123456" + " " + "notimezone" + " ") + "\n",
                            "author ", "Vicent Marti", "tanoku@gmail.com", 0, 0)
  {
    HeaderTexts();
    NameVicent();
    EmailTanoku();
    WhenNotAZone();
    SignatureRow("author ", ("Vicent Marti" + " "), "tanoku@gmail.com", (" " + "123456" + " " + "notimezone" + " "),
                 Signature("Vicent Marti", "tanoku@gmail.com", Time(0, 0)));
  }

  /** A timestamp that is not a number before a valid zone: both fields are zero. (tests-clar/commit/parse.c:118) */
  lemma PassingSignature23()
    ensures SignaturePasses("author " + ("Vicent Marti" + " ") + "<" + "tanoku@gmail.com" + ">" + (" " + "notime" + " " + "+0100") + "\n",
                            "author ", "Vicent Marti", "tanoku@gmail.com", 0, 0)
  {
    HeaderTexts();
    NameVicent();
    EmailTanoku();
    WhenNotANumberWithZone();
    SignatureRow("author ", ("Vicent Marti" + " "), "tanoku@gmail.com", (" " + "notime" + " " + "+0100"),
                 Signature("Vicent Marti", "tanoku@gmail.com", Time(0, 0)));
  }

  /** The line ends at the '>'. (tests-clar/commit/parse.c:119) */
  lemma PassingSignature24()
    ensures SignaturePasses("author " + ("Vicent Marti" + " ") + "<" + "tanoku@gmail.com" + ">" + "" + "\n",
                            "author ", "Vicent Marti", "tanoku@gmail.com", 0, 0)
  {
    HeaderTexts();
    NameVicent();
    EmailTanoku();
    WhenBlank();
    SignatureRow("author ", ("Vicent Marti" + " "), "tanoku@gmail.com", "",
                 Signature("Vicent Marti", "tanoku@gmail.com", Time(0, 0)));
  }

  /** A second name and email after the first pair: the first pair is the email, and the time comes from the last two words. (tests-clar/commit/parse.c:120) */
  lemma PassingSignature25()
    ensures SignaturePasses("author " + ("A U Thor" + " ") + "<" + "author@example.com" + ">" + (",  C O. Miter " + "<comiter@example.com> " + "1234567890" + " " + "-0700") + "\n",
                            "author ", "A U Thor", "author@example.com", 1234567890, -420)
  {
    HeaderTexts();
    NameThor();
    EmailThor();
    WhenAfterSecondPair();
    SignatureRow("author ", ("A U Thor" + " "), "author@example.com", (",  C O. Miter " + "<comiter@example.com> " + "1234567890" + " " + "-0700"),
                 Signature("A U Thor", "author@example.com", Time(1234567890, -420)));
  }

  /** Free text between the email and the time. (tests-clar/commit/parse.c:121) */
  lemma PassingSignature26()
    ensures SignaturePasses("author " + ("A U Thor" + " ") + "<" + "author@example.com" + ">" + (" and others " + "1234567890" + " " + "-0700") + "\n",
                            "author ", "A U Thor", "author@example.com", 1234567890, -420)
  {
    HeaderTexts();
    NameThor();
    EmailThor();
    WhenAfterTextWithZone();
    SignatureRow("author ", ("A U Thor" + " "), "author@example.com", (" and others " + "1234567890" + " " + "-0700"),
                 Signature("A U Thor", "author@example.com", Time(1234567890, -420)));
  }

  /** Free text and a timestamp with no zone. (tests-clar/commit/parse.c:122) */
  lemma PassingSignature27()
    ensures SignaturePasses("author " + ("A U Thor" + " ") + "<" + "author@example.com" + ">" + (" and others " + "1234567890") + "\n",
                            "author ", "A U Thor", "author@example.com", 1234567890, 0)
  {
    HeaderTexts();
    NameThor();
    EmailThor();
    WhenAfterText();
    SignatureRow("author ", ("A U Thor" + " "), "author@example.com", (" and others " + "1234567890"),
                 Signature("A U Thor", "author@example.com", Time(1234567890, 0)));
  }

  /** A '>' in the name: the email is still the first '<' and the first '>' after it. (tests-clar/commit/parse.c:123) */
  lemma PassingSignature28()
    ensures SignaturePasses("author " + ("A U Thor>" + " ") + "<" + "author@example.com" + ">" + (" and others " + "1234567890") + "\n",
                            "author ", "A U Thor>", "author@example.com", 1234567890, 0)
  {
    HeaderTexts();
    NameThorBracket();
    EmailThor();
    WhenAfterText();
    SignatureRow("author ", ("A U Thor>" + " "), "author@example.com", (" and others " + "1234567890"),
                 Signature("A U Thor>", "author@example.com", Time(1234567890, 0)));
  }

  // ---------------------------------------------------------------------
  // Failing signature lines

  /**
   * A line whose every '<' sits among its last two characters fails: the
   * email needs a '<' followed by a '>' and then the terminator.
   */
  lemma OpensTooLate(a: seq<char>, b: seq<char>, header: seq<char>)
    requires Avoiding(a, '<') && |b| <= 2
    ensures SignatureFails(a + b, header)
  {
    var s := a + b;
    SignatureAcceptsExactly(s, header, '\n');
    forall lineEnd: nat, lt: nat, gt: nat
      ensures !ShapedAt(s, header, '\n', lineEnd, lt, gt)
    {
      if lt < |a| {
        assert s[lt] == a[lt];
      }
    }
  }

  /** A line without a '>' before its last character fails. */
  lemma ClosesNever(a: seq<char>, b: seq<char>, header: seq<char>)
    requires Avoiding(a, '>') && |b| <= 1
    ensures SignatureFails(a + b, header)
  {
    var s := a + b;
    SignatureAcceptsExactly(s, header, '\n');
    forall lineEnd: nat, lt: nat, gt: nat
      ensures !ShapedAt(s, header, '\n', lineEnd, lt, gt)
    {
      if gt < |a| {
        assert s[gt] == a[gt];
      }
    }
  }

  /** A line without its terminator fails, whatever else it holds. */
  lemma EndsNever(s: seq<char>, header: seq<char>)
    requires Avoiding(s, '\n')
    ensures SignatureFails(s, header)
  {
    SignatureAcceptsExactly(s, header, '\n');
  }

  /** A line that differs from the header at position `i` fails. */
  lemma HeaderMismatch(s: seq<char>, header: seq<char>, i: nat)
    requires i < |header| && i < |s| && s[i] != header[i]
    ensures SignatureFails(s, header)
  {
    SignatureAcceptsExactly(s, header, '\n');
    assert s[0 + i] != header[i];
    assert !HasAt(s, 0, header);
  }

  /** No '<' before the email: the line cannot be split into name and email. */
  lemma FailingSignature0()
    ensures SignatureFails("committer " + "Vicent Marti " + "tanoku@gmail.com> " + "123456 -0100 " + "\n", "committer ")
  {
    OpensTooLate("committer " + "Vicent Marti " + "tanoku@gmail.com> " + "123456 -0100 ", "\n", "committer ");
  }

  /** The header asked for has a doubled space the line does not. */
  lemma FailingSignature1()
    ensures SignatureFails("author " + "Vicent Marti " + "<tanoku@gmail.com> " + "12345 " + "\n", "author  ")
  {
    HeaderMismatch("author " + "Vicent Marti " + "<tanoku@gmail.com> " + "12345 " + "\n", "author  ", 7);
  }

  /** An author line read where a committer line is expected. */
  lemma FailingSignature2()
    ensures SignatureFails("author " + "Vicent Marti " + "<tanoku@gmail.com> " + "12345 " + "\n", "committer ")
  {
    HeaderMismatch("author " + "Vicent Marti " + "<tanoku@gmail.com> " + "12345 " + "\n", "committer ", 0);
  }

  /** No email at all. */
  lemma FailingSignature3()
    ensures SignatureFails("author " + "Vicent Marti " + "12345 " + "\n", "author ")
  {
    OpensTooLate("author " + "Vicent Marti " + "12345 ", "\n", "author ");
  }

  /** An email that is never closed. */
  lemma FailingSignature4()
    ensures SignatureFails("author " + "Vicent Marti " + "<broken@email " + "12345 " + "\n", "author ")
  {
    ClosesNever("author " + "Vicent Marti " + "<broken@email " + "12345 ", "\n", "author ");
  }

  /** The brackets in the wrong order: the '>' before the '<'. */
  lemma FailingSignature5()
    ensures SignatureFails("committer " + "Vicent Marti " + ">" + "<\n", "committer ")
  {
    OpensTooLate("committer " + "Vicent Marti " + ">", "<\n", "committer ");
  }

  /** Nothing after the header, not even the terminator. */
  lemma FailingSignature6()
    ensures SignatureFails("author ", "author ")
  {
    EndsNever("author ", "author ");
  }

  // ---------------------------------------------------------------------
  // Whole commit buffers

  /** What the commit test asserts of a passing buffer. */
  predicate CommitPasses(buf: seq<char>) {
    ReturnCode(ParseBuffer(buf)) >= 0
  }

  /** What the commit test asserts of a failing buffer. */
  predicate CommitFails(buf: seq<char>) {
    ReturnCode(ParseBuffer(buf)) < 0
  }

  /**
   * A buffer that does not open with a 46-character line starting with 't'
   * and ending in a newline has no tree line, and fails.
   */
  lemma NoTreeLine(buf: seq<char>)
    requires |buf| <= 45 || buf[0] != 't' || buf[45] != '\n'
    ensures CommitFails(buf)
  {
    HeadersNeedTree(buf);
    BufferNeedsHeaders(buf);
  }

  /** A tree line whose 40 digits run on into something other than a newline. */
  lemma TreeLineRunsOn(hex: seq<char>, tail: seq<char>)
    requires |hex| == HexSize && |tail| > 0 && tail[0] != '\n'
    ensures CommitFails("tree " + hex + tail)
  {
    var buf := "tree " + hex + tail;
    assert buf[45] == tail[0];
    NoTreeLine(buf);
  }

  /**
   * A tree line followed by less than a whole parent line starting with 'p':
   * there is no parent line, and no author line either.
   */
  lemma TreeThenCutParent(hex: seq<char>, rest: seq<char>)
    requires |hex| == HexSize && AllHex(hex)
    requires 0 < |rest| < ParentLineSize && rest[0] == 'p'
    ensures CommitFails("tree " + hex + "\n" + rest)
  {
    var buf := "tree " + hex + "\n" + rest;
    OidLineAccepts("tree ", hex, rest);
    assert buf[|TreeHeader| + HexSize + 1..] == rest;
    assert ParseParents(rest).1 == 0;
    NoAuthorLine(rest);
    HeadersNeedPeople(buf, ObjectId(DecodeHex(hex)), |TreeHeader| + HexSize + 1);
    BufferNeedsHeaders(buf);
  }

  /** The empty buffer. */
  lemma FailingCommit0()
    ensures CommitFails("")
  {
    NoTreeLine("");
  }

  /** Random text with no headers. */
  lemma FailingCommit1()
    ensures CommitFails("asd97sa9du902e9a0jdsuusad09as9du098709aweu8987sd" + "\n")
  {
    NoTreeLine("asd97sa9du902e9a0jdsuusad09as9du098709aweu8987sd" + "\n");
  }

  /** Carriage returns before the newlines. */
  lemma FailingCommit2()
    ensures CommitFails("tree " + "f6c0dad3c7b3481caa9d73db21f91964894a945b"
                        + ("\r\n" + "parent " + "05452d6349abcd67aa396dfb28660d765d8b2a36" + "\r\n"
                           + "author " + "Vicent Marti " + "<tanoku@gmail.com> " + "1273848544 +0200" + "\r\n"
                           + "committer " + "Vicent Marti " + "<tanoku@gmail.com> " + "1273848544 +0200" + "\r\n"
                           + "\r\n"
                           + "a test commit with broken endlines" + "\r\n"))
  {
    TreeLineRunsOn("f6c0dad3c7b3481caa9d73db21f91964894a945b",
                   "\r\n" + "parent " + "05452d6349abcd67aa396dfb28660d765d8b2a36" + "\r\n"
                   + "author " + "Vicent Marti " + "<tanoku@gmail.com> " + "1273848544 +0200" + "\r\n"
                   + "committer " + "Vicent Marti " + "<tanoku@gmail.com> " + "1273848544 +0200" + "\r\n"
                   + "\r\n"
                   + "a test commit with broken endlines" + "\r\n");
  }

  /** No newlines at all: the header lines run together. */
  lemma FailingCommit3()
    ensures CommitFails("tree " + "f6c0dad3c7b3481caa9d73db21f91964894a945b"
                        + ("parent " + "05452d6349abcd67aa396dfb28660d765d8b2a36"
                           + "author " + "Vicent Marti " + "<tanoku@gmail.com> " + "1273848544 +0200"
                           + "committer " + "Vicent Marti " + "<tanoku@gmail.com> " + "1273848544 +0200"
                           + "another test commit with broken endlines"))
  {
    TreeLineRunsOn("f6c0dad3c7b3481caa9d73db21f91964894a945b",
                   "parent " + "05452d6349abcd67aa396dfb28660d765d8b2a36"
                   + "author " + "Vicent Marti " + "<tanoku@gmail.com> " + "1273848544 +0200"
                   + "committer " + "Vicent Marti " + "<tanoku@gmail.com> " + "1273848544 +0200"
                   + "another test commit with broken endlines");
  }

  /** A newline before the tree line. */
  lemma FailingCommit4()
    ensures CommitFails("\n" + "tree " + "f6c0dad3c7b3481caa9d73db21f91964894a945b" + "\n"
                        + "parent " + "05452d6349abcd67aa396dfb28660d765d8b2a36" + "\n"
                        + "author " + "Vicent Marti " + "<tanoku@gmail.com> " + "1273848544 +0200" + "\n"
                        + "committer " + "Vicent Marti " + "<tanoku@gmail.com> " + "1273848544 +0200" + "\n"
                        + "\n"
                        + "a test commit with a starting endline" + "\n")
  {
    var buf := "\n" + "tree " + "f6c0dad3c7b3481caa9d73db21f91964894a945b" + "\n"
               + "parent " + "05452d6349abcd67aa396dfb28660d765d8b2a36" + "\n"
               + "author " + "Vicent Marti " + "<tanoku@gmail.com> " + "1273848544 +0200" + "\n"
               + "committer " + "Vicent Marti " + "<tanoku@gmail.com> " + "1273848544 +0200" + "\n"
               + "\n"
               + "a test commit with a starting endline" + "\n";
    assert buf[0] == '\n';
    NoTreeLine(buf);
  }

  /** A parent line cut inside its id. */
  lemma FailingCommit5()
    ensures CommitFails("tree " + "f6c0dad3c7b3481caa9d73db21f91964894a945b" + "\n" + ("parent " + "05452d6349abcd67aa396df"))
  {
    TreeThenCutParent("f6c0dad3c7b3481caa9d73db21f91964894a945b", "parent " + "05452d6349abcd67aa396df");
  }

  /** A parent line cut after its header (the table lists this buffer twice). */
  lemma FailingCommit6()
    ensures CommitFails("tree " + "f6c0dad3c7b3481caa9d73db21f91964894a945b" + "\n" + "parent ")
  {
    TreeThenCutParent("f6c0dad3c7b3481caa9d73db21f91964894a945b", "parent ");
  }

  /** A parent line cut inside its header. */
  lemma FailingCommit7()
    ensures CommitFails("tree " + "f6c0dad3c7b3481caa9d73db21f91964894a945b" + "\n" + "par")
  {
    TreeThenCutParent("f6c0dad3c7b3481caa9d73db21f91964894a945b", "par");
  }

  /** The name, email and time of the passing commit rows' author and committer lines. */
  const VicentName: seq<char> := "Vicent Marti" + " "
  const VicentEmail: seq<char> := "tanoku@gmail.com"
  const VicentStamp: seq<char> := " " + "1273848544" + " " + "+0200"
  const AuthorLine: seq<char> := "author " + VicentName + "<" + VicentEmail + ">" + VicentStamp + "\n"
  const CommitterLine: seq<char> := "committer " + VicentName + "<" + VicentEmail + ">" + VicentStamp + "\n"
  const SimpleTree: seq<char> := "tree " + "1810dff58d8a660512d4832e740f692884338ccd" + "\n"
  const SimpleParent: seq<char> := "parent " + "e90810b8df3e80c413d903f631643c716887138d" + "\n"
  const VicentLines: seq<char> := AuthorLine + CommitterLine
  const SimpleBody: seq<char> := "\n" + "a simple commit which works" + "\n"
  const UnendedBody: seq<char> := "\n" + "a simple commit which works"

  /** A signature line built from pieces free of the delimiters parses, and ends where the line does. */
  lemma SignatureLineAccepts(header: seq<char>, name: seq<char>, email: seq<char>, tail: seq<char>, rest: seq<char>)
    requires Avoiding(header, '\n') && Avoiding(name, '<') && Avoiding(email, '>') && Avoiding(tail, '\n')
    ensures Parsed(ParseSignature(header + name + "<" + email + ">" + tail + "\n" + rest, header, '\n'),
                   Signature(Trim(name), Trim(email), ParseWhen(tail)),
                   |header + name + "<" + email + ">" + tail + "\n"|)
  {
    SignatureAccepts(header, name, email, tail, '\n', rest);
    assert header + name + "<" + email + ">" + tail + ['\n'] + rest == header + name + "<" + email + ">" + tail + "\n" + rest;
  }

  /** The pieces of the passing commit rows' signature lines hold no delimiter. */
  lemma VicentPieces()
    ensures Avoiding("author ", '\n') && Avoiding("committer ", '\n')
    ensures Avoiding(VicentName, '<') && Avoiding(VicentEmail, '>') && Avoiding(VicentStamp, '\n')
  {
    HeaderTexts();
    NameVicent();
    EmailTanoku();
  }

  /** The author and committer lines of the passing rows, whatever follows them. */
  lemma VicentPeople(rest: seq<char>)
    ensures ParsePeople(AuthorLine + (CommitterLine + rest)).Ok?
    ensures ParsePeople(AuthorLine + (CommitterLine + rest)).value.1 == |AuthorLine| + |CommitterLine|
  {
    VicentPieces();
    SignatureLineAccepts("author ", VicentName, VicentEmail, VicentStamp, CommitterLine + rest);
    SignatureLineAccepts("committer ", VicentName, VicentEmail, VicentStamp, rest);
    var sig := Signature(Trim(VicentName), Trim(VicentEmail), ParseWhen(VicentStamp));
    PeopleOfLines(AuthorLine, CommitterLine, rest, sig, sig);
  }

  /** The same, with the two lines taken together. */
  lemma VicentLinesParse(body: seq<char>)
    ensures ParsePeople(VicentLines + body).Ok? && ParsePeople(VicentLines + body).value.1 == |VicentLines|
  {
    VicentPeople(body);
    PeopleJoined(AuthorLine, CommitterLine, body);
  }

  /** Regrouping an author line and a committer line does not change what they parse to. */
  lemma PeopleJoined(al: seq<char>, cl: seq<char>, rest: seq<char>)
    requires ParsePeople(al + (cl + rest)).Ok? && ParsePeople(al + (cl + rest)).value.1 == |al| + |cl|
    ensures ParsePeople(al + cl + rest).Ok? && ParsePeople(al + cl + rest).value.1 == |al + cl|
  {
    Regrouped(al, cl, rest);
  }

  /** Concatenation is associative. */
  lemma Regrouped(a: seq<char>, b: seq<char>, c: seq<char>)
    ensures a + b + c == a + (b + c)
  {
  }

  /**
   * A tree line, parent lines that end where the author line starts, author
   * and committer lines, and a body that is empty or starts with a blank
   * line: the buffer is accepted.
   */
  lemma CommitOfLines(hex: seq<char>, tl: seq<char>, pl: seq<char>, people: seq<char>, body: seq<char>)
    requires tl == "tree " + hex + "\n" && |hex| == HexSize && AllHex(hex)
    requires ParseParents(pl + (people + body)).1 == |pl|
    requires ParsePeople(people + body).Ok? && ParsePeople(people + body).value.1 == |people|
    requires |body| == 0 || body[0] == '\n'
    ensures CommitPasses(tl + pl + people + body)
  {
    var rest := pl + (people + body);
    Regrouped(tl, pl, people + body);
    Regrouped(tl + pl, people, body);
    var buf := tl + rest;
    OidLineAccepts("tree ", hex, rest);
    CommitOfParts(buf, tl, rest, pl, people, body);
  }

  /** Where the parts of a buffer made of a tree line, parent lines, people and a body start. */
  lemma CommitOfParts(buf: seq<char>, tl: seq<char>, rest: seq<char>, pl: seq<char>, people: seq<char>, body: seq<char>)
    requires buf == tl + rest && rest == pl + (people + body)
    ensures buf[|tl|..] == rest && rest[|pl|..] == people + body && buf[|tl| + |pl| + |people|..] == body
  {
  }

  /** `CommitOfLines` without parent lines. */
  lemma CommitOfLinesNoParent(hex: seq<char>, tl: seq<char>, people: seq<char>, body: seq<char>)
    requires tl == "tree " + hex + "\n" && |hex| == HexSize && AllHex(hex)
    requires ParseParents(people + body).1 == 0
    requires ParsePeople(people + body).Ok? && ParsePeople(people + body).value.1 == |people|
    requires |body| == 0 || body[0] == '\n'
    ensures CommitPasses(tl + people + body)
  {
    EmptyParents(tl, people + body);
    CommitOfLines(hex, tl, [], people, body);
    Regrouped(tl, [], people);
  }

  /** No parent lines at all. */
  lemma EmptyParents(tl: seq<char>, rest: seq<char>)
    ensures [] + rest == rest && tl + [] == tl
  {
  }

  /** A parent line in front of text that holds no parent line. */
  lemma OneParentLine(hex: seq<char>, pl: seq<char>, rest: seq<char>)
    requires pl == "parent " + hex + "\n" && |hex| == HexSize && AllHex(hex)
    requires ParseParents(rest).1 == 0
    ensures ParseParents(pl + rest).1 == |pl|
  {
    OidLineAccepts("parent ", hex, rest);
    assert pl + rest == "parent " + hex + "\n" + rest;
    assert (pl + rest)[|pl|..] == rest;
    ParentsStep(pl + rest, ObjectId(DecodeHex(hex)), |pl|);
  }

  /** The author line is not a parent line: no parents are read in front of it. */
  lemma NoParentBefore(body: seq<char>)
    ensures ParseParents(VicentLines + body).1 == 0
  {
    assert (VicentLines + body)[0] == 'a';
    NotParentLine(VicentLines + body);
  }

  /** The tree id of the passing rows is 40 hexadecimal digits. */
  lemma SimpleTreeHex()
    ensures |"1810dff58d8a660512d4832e740f692884338ccd"| == HexSize && AllHex("1810dff58d8a660512d4832e740f692884338ccd")
  {
  }

  /** A commit with no parent and no message. */
  lemma PassingCommit0()
    ensures CommitPasses(SimpleTree + VicentLines + "\n")
  {
    SimpleTreeHex();
    NoParentBefore("\n");
    VicentLinesParse("\n");
    CommitOfLinesNoParent("1810dff58d8a660512d4832e740f692884338ccd", SimpleTree, VicentLines, "\n");
  }

  /** A commit with no parent and a one-line message. */
  lemma PassingCommit1()
    ensures CommitPasses(SimpleTree + VicentLines + SimpleBody)
  {
    SimpleTreeHex();
    NoParentBefore(SimpleBody);
    VicentLinesParse(SimpleBody);
    CommitOfLinesNoParent("1810dff58d8a660512d4832e740f692884338ccd", SimpleTree, VicentLines, SimpleBody);
  }

  /** A commit with no parent and a message without a final newline. */
  lemma PassingCommit2()
    ensures CommitPasses(SimpleTree + VicentLines + UnendedBody)
  {
    SimpleTreeHex();
    NoParentBefore(UnendedBody);
    VicentLinesParse(UnendedBody);
    CommitOfLinesNoParent("1810dff58d8a660512d4832e740f692884338ccd", SimpleTree, VicentLines, UnendedBody);
  }

  /** A commit with one parent and a one-line message. */
  lemma PassingCommit3()
    ensures CommitPasses(SimpleTree + SimpleParent + VicentLines + SimpleBody)
  {
    SimpleTreeHex();
    NoParentBefore(SimpleBody);
    OneParentLine("e90810b8df3e80c413d903f631643c716887138d", SimpleParent, VicentLines + SimpleBody);
    VicentLinesParse(SimpleBody);
    CommitOfLines("1810dff58d8a660512d4832e740f692884338ccd", SimpleTree, SimpleParent, VicentLines, SimpleBody);
  }
}
