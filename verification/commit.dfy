/**
 * Commit objects and the commit buffer parser `git_commit__parse_buffer`.
 * A raw commit buffer is
 *
 *   tree <hex>\n
 *   parent <hex>\n        (zero or more)
 *   author <signature>\n
 *   committer <signature>\n
 *   \n<message>           (or nothing at all)
 *
 * and the parser reads it front to back with a cursor, failing as soon as a
 * line is not what the grammar expects there.
 */
module Commits {
  import opened Results
  import opened Text
  import opened Oid
  import opened Signatures

  const TreeHeader: seq<char> := "tree "
  const ParentHeader: seq<char> := "parent "
  const AuthorHeader: seq<char> := "author "
  const CommitterHeader: seq<char> := "committer "

  /** Length of one `parent <hex>\n` line. */
  const ParentLineSize: nat := 48

  datatype Commit = Commit(tree: ObjectId, parents: seq<ObjectId>, author: Signature, committer: Signature,
                           message: seq<char>)

  /** What the parser can produce and the writer can write: valid ids and well-formed signatures. */
  predicate ValidCommit(c: Commit) {
    && c.tree.Valid()
    && AllValid(c.parents)
    && WellFormed(c.author, '\n')
    && WellFormed(c.committer, '\n')
  }

  predicate AllValid(ids: seq<ObjectId>) {
    forall i | 0 <= i < |ids| :: ids[i].Valid()
  }

  /** The same commit with its message dropped: what the header lines alone describe. */
  function Headers(c: Commit): Commit {
    c.(message := [])
  }

  lemma ParentLineLength()
    ensures |ParentHeader| + HexSize + 1 == ParentLineSize
  {
  }

  // ---------------------------------------------------------------------
  // Parent lines

  /**
   * Reads `parent` lines from the start of `s` for as long as there are any.
   * Returns the ids in order and the length of those lines; the text after
   * them does not start with a parent line.
   */
  function ParseParents(s: seq<char>): (r: (seq<ObjectId>, nat))
    ensures r.1 <= |s| && AllValid(r.0)
    ensures ParseOidLine(s[r.1..], ParentHeader).Err?
    decreases |s|
  {
    match ParseOidLine(s, ParentHeader)
    case Err(_) => ([], 0)
    case Ok((id, n)) =>
      var (ids, m) := ParseParents(s[n..]);
      assert s[n..][m..] == s[n + m..];
      ([id] + ids, n + m)
  }

  /** The parent lines of some ids. */
  function FormatParents(ids: seq<ObjectId>): (text: seq<char>)
    requires AllValid(ids)
    decreases |ids|
  {
    if |ids| == 0 then [] else FormatOidLine(ParentHeader, ids[0]) + FormatParents(ids[1..])
  }

  /**
   * Parent `i` is the id on the `i`-th parent line: the parent lines sit one
   * after another, each `ParentLineSize` long.
   */
  lemma {:induction false} ParentLines(s: seq<char>, i: nat)
    requires i < |ParseParents(s).0|
    ensures (i + 1) * ParentLineSize <= ParseParents(s).1
    ensures Parsed(ParseOidLine(s[i * ParentLineSize..], ParentHeader), ParseParents(s).0[i], ParentLineSize)
    decreases i
  {
    ParentLineLength();
    var (id, n) := ParseOidLine(s, ParentHeader).value;
    var (ids, m) := ParseParents(s[n..]);
    if i > 0 {
      ParentLines(s[n..], i - 1);
      assert s[n..][(i - 1) * ParentLineSize..] == s[i * ParentLineSize..];
    }
  }

  /** Parent lines followed by text that is not a parent line read back as their ids. */
  lemma {:induction false} ParentsRoundTrip(ids: seq<ObjectId>, rest: seq<char>)
    requires AllValid(ids) && ParseOidLine(rest, ParentHeader).Err?
    ensures ParseParents(FormatParents(ids) + rest).0 == ids
    ensures ParseParents(FormatParents(ids) + rest).1 == |FormatParents(ids)|
    decreases |ids|
  {
    if |ids| == 0 {
      assert FormatParents(ids) + rest == rest;
    } else {
      var line := FormatOidLine(ParentHeader, ids[0]);
      var more := FormatParents(ids[1..]) + rest;
      assert FormatParents(ids) + rest == line + more;
      OidLineRoundTrip(ParentHeader, ids[0], more);
      ParentsStep(line + more, ids[0], |line|);
      assert (line + more)[|line|..] == more;
      ParentsRoundTrip(ids[1..], rest);
      assert ids == [ids[0]] + ids[1..];
    }
  }

  /** After one parent line come the parents of the text that follows it. */
  lemma ParentsStep(s: seq<char>, id: ObjectId, n: nat)
    requires Parsed(ParseOidLine(s, ParentHeader), id, n)
    ensures ParseParents(s).0 == [id] + ParseParents(s[n..]).0
    ensures ParseParents(s).1 == n + ParseParents(s[n..]).1
  {
  }

  /** Text that starts with anything but 'p' is not a parent line. */
  lemma NotParentLine(s: seq<char>)
    requires |s| > 0 && s[0] != 'p'
    ensures ParseOidLine(s, ParentHeader).Err?
  {
  }

  /** Dropping text after the parent lines leaves them as they are. */
  lemma {:induction false} ParentsPrefix(s: seq<char>, k: nat)
    requires ParseParents(s).1 <= k <= |s|
    ensures ParseParents(s[..k]).0 == ParseParents(s).0 && ParseParents(s[..k]).1 == ParseParents(s).1
    decreases |s|
  {
    match ParseOidLine(s, ParentHeader)
    case Err(_) =>
      OidLineCut(s, ParentHeader, k);
    case Ok((id, n)) =>
      OidLineLocal(s, s[..k], ParentHeader);
      var m := ParseParents(s[n..]).1;
      assert s[..k][n..] == s[n..][..k - n];
      ParentsPrefix(s[n..], k - n);
  }

  /**
   * Cut inside the parent lines, the text reads as fewer parents, and what
   * follows them is either nothing or the start of a parent line.
   */
  lemma {:induction false} ParentsCut(s: seq<char>, k: nat)
    requires k < ParseParents(s).1 && k <= |s|
    ensures var n := ParseParents(s[..k]).1; n == k || (n < k && s[n] == 'p')
    decreases |s|
  {
    var (id, n) := ParseOidLine(s, ParentHeader).value;
    assert s[0] == s[..|ParentHeader|][0];
    if k < n {
      OidLineTruncated(s, ParentHeader, k);
    } else {
      OidLineLocal(s, s[..k], ParentHeader);
      assert s[..k][n..] == s[n..][..k - n];
      ParentsCut(s[n..], k - n);
      var m := ParseParents(s[n..][..k - n]).1;
      assert m == k - n || s[n..][m] == s[n + m];
    }
  }

  // ---------------------------------------------------------------------
  // The commit buffer

  /**
   * Reads the header lines at the start of `buf`: the tree line, the parent
   * lines, the author line and the committer line, in that order. Returns
   * the commit they describe, with an empty message, and their length.
   */
  function ParseHeaders(buf: seq<char>): (r: Result<(Commit, nat)>)
    ensures r.Ok? ==> ValidCommit(r.value.0) && r.value.0.message == []
    ensures r.Ok? ==> 0 < r.value.1 <= |buf|
    ensures r.Err? ==> r.error == MalformedCommit
  {
    match ParseOidLine(buf, TreeHeader)
    case Err(_) => Err(MalformedCommit)
    case Ok((tree, n)) =>
      var rest := buf[n..];
      var (parents, m) := ParseParents(rest);
      match ParsePeople(rest[m..])
      case Err(e) => Err(e)
      case Ok(((author, committer), l)) =>
        Ok((Commit(tree, parents, author, committer, []), n + m + l))
  }

  /** Reads the author line and then the committer line. */
  function ParsePeople(s: seq<char>): (r: Result<((Signature, Signature), nat)>)
    ensures r.Ok? ==> WellFormed(r.value.0.0, '\n') && WellFormed(r.value.0.1, '\n')
    ensures r.Ok? ==> 0 < r.value.1 <= |s|
    ensures r.Ok? ==> HasAt(s, 0, AuthorHeader)
    ensures r.Err? ==> r.error == MalformedCommit
  {
    ParsedSignatureWellFormed(s, AuthorHeader, '\n');
    SignatureLineStart(s, AuthorHeader);
    match ParseSignature(s, AuthorHeader, '\n')
    case Err(_) => Err(MalformedCommit)
    case Ok((author, n)) =>
      ParsedSignatureWellFormed(s[n..], CommitterHeader, '\n');
      match ParseSignature(s[n..], CommitterHeader, '\n')
      case Err(_) => Err(MalformedCommit)
      case Ok((committer, m)) =>
        Ok(((author, committer), n + m))
  }

  /** A parsed signature line starts with its header. */
  lemma SignatureLineStart(s: seq<char>, header: seq<char>)
    ensures ParseSignature(s, header, '\n').Ok? ==> HasAt(s, 0, header)
  {
    if ParseSignature(s, header, '\n').Ok? {
      SignatureLine(s, header, '\n');
    }
  }

  /**
   * The message after the header lines: nothing at all, or a blank line and
   * then the rest of the buffer verbatim, with or without a final newline.
   */
  function ParseMessage(s: seq<char>): (r: Option<seq<char>>)
    ensures r.Some? <==> |s| == 0 || s[0] == '\n'
    ensures r.Some? && |s| > 0 ==> s == "\n" + r.value
    ensures r.Some? && |s| == 0 ==> r.value == []
  {
    if |s| == 0 then Some([])
    else if s[0] == '\n' then Some(s[1..])
    else None
  }

  /** Reads a whole commit buffer. */
  function ParseBuffer(buf: seq<char>): (r: Result<Commit>)
    ensures r.Ok? ==> ValidCommit(r.value)
    ensures r.Err? ==> r.error == MalformedCommit
  {
    match ParseHeaders(buf)
    case Err(e) => Err(e)
    case Ok((c, n)) =>
      match ParseMessage(buf[n..])
      case None => Err(MalformedCommit)
      case Some(message) => Ok(c.(message := message))
  }

  /** The header lines of a commit. */
  function FormatHeaders(c: Commit): (text: seq<char>)
    requires ValidCommit(c)
  {
    FormatOidLine(TreeHeader, c.tree)
      + (FormatParents(c.parents)
         + (FormatSignature(AuthorHeader, c.author, '\n') + FormatSignature(CommitterHeader, c.committer, '\n')))
  }

  /** The raw buffer of a commit: its header lines, a blank line and the message. */
  function Serialize(c: Commit): (buf: seq<char>)
    requires ValidCommit(c)
  {
    FormatHeaders(c) + ("\n" + c.message)
  }

  // ---------------------------------------------------------------------
  // Writing and reading back

  /** How the author and committer lines parse decides how the pair parses. */
  lemma PeopleStep(s: seq<char>, author: Signature, n: nat, committer: Signature, m: nat)
    requires Parsed(ParseSignature(s, AuthorHeader, '\n'), author, n)
    requires Parsed(ParseSignature(s[n..], CommitterHeader, '\n'), committer, m)
    ensures Parsed(ParsePeople(s), (author, committer), n + m)
  {
  }

  /** An author line followed by a committer line parse as the pair of them. */
  lemma PeopleOfLines(al: seq<char>, cl: seq<char>, rest: seq<char>, author: Signature, committer: Signature)
    requires Parsed(ParseSignature(al + (cl + rest), AuthorHeader, '\n'), author, |al|)
    requires Parsed(ParseSignature(cl + rest, CommitterHeader, '\n'), committer, |cl|)
    ensures Parsed(ParsePeople(al + (cl + rest)), (author, committer), |al| + |cl|)
  {
    assert (al + (cl + rest))[|al|..] == cl + rest;
    PeopleStep(al + (cl + rest), author, |al|, committer, |cl|);
  }

  /** The author and committer lines read back as the signatures they were written from. */
  lemma PeopleRoundTrip(author: Signature, committer: Signature, rest: seq<char>)
    requires WellFormed(author, '\n') && WellFormed(committer, '\n')
    ensures var al := FormatSignature(AuthorHeader, author, '\n');
            var cl := FormatSignature(CommitterHeader, committer, '\n');
            Parsed(ParsePeople(al + (cl + rest)), (author, committer), |al| + |cl|)
  {
    var al := FormatSignature(AuthorHeader, author, '\n');
    var cl := FormatSignature(CommitterHeader, committer, '\n');
    SignatureRoundTrip(AuthorHeader, author, '\n', cl + rest);
    SignatureRoundTrip(CommitterHeader, committer, '\n', rest);
    PeopleOfLines(al, cl, rest, author, committer);
  }

  /** Header lines read back as the commit they were written from, whatever follows them. */
  lemma HeadersRoundTrip(c: Commit, rest: seq<char>)
    requires ValidCommit(c)
    ensures Parsed(ParseHeaders(FormatHeaders(c) + rest), Headers(c), |FormatHeaders(c)|)
  {
    var tl := FormatOidLine(TreeHeader, c.tree);
    var pl := FormatParents(c.parents);
    var al := FormatSignature(AuthorHeader, c.author, '\n');
    var cl := FormatSignature(CommitterHeader, c.committer, '\n');
    var people := al + (cl + rest);
    var afterTree := pl + people;
    assert FormatHeaders(c) + rest == tl + afterTree;
    OidLineRoundTrip(TreeHeader, c.tree, afterTree);
    assert (tl + afterTree)[|tl|..] == afterTree;
    assert people[0] == 'a';
    NotParentLine(people);
    ParentsRoundTrip(c.parents, people);
    assert afterTree[|pl|..] == people;
    PeopleRoundTrip(c.author, c.committer, rest);
  }

  /** A commit survives writing and reading back. */
  lemma CommitRoundTrip(c: Commit)
    requires ValidCommit(c)
    ensures ParseBuffer(Serialize(c)).Ok? && ParseBuffer(Serialize(c)).value == c
  {
    var h := FormatHeaders(c);
    HeadersRoundTrip(c, "\n" + c.message);
    assert (h + ("\n" + c.message))[|h|..] == "\n" + c.message;
  }

  /** A buffer that ends right after the committer line reads as a commit with an empty message. */
  lemma HeadersOnly(c: Commit)
    requires ValidCommit(c)
    ensures ParseBuffer(FormatHeaders(c)).Ok? && ParseBuffer(FormatHeaders(c)).value == Headers(c)
  {
    var h := FormatHeaders(c);
    HeadersRoundTrip(c, []);
    assert h + [] == h;
  }

  // ---------------------------------------------------------------------
  // What every accepted buffer looks like

  /**
   * An accepted buffer starts with a complete tree line ending in '\n': so
   * an empty buffer, one that starts with anything but "tree ", and one
   * whose first line ends in "\r\n" are all rejected.
   */
  lemma TreeLineFirst(buf: seq<char>)
    requires ParseBuffer(buf).Ok?
    ensures |TreeHeader| + HexSize + 1 <= |buf|
    ensures buf[..|TreeHeader|] == TreeHeader && buf[|TreeHeader| + HexSize] == '\n'
  {
  }

  /** After the tree line and the parent lines an accepted buffer continues with "author ". */
  lemma AuthorAfterParents(buf: seq<char>)
    requires ParseBuffer(buf).Ok?
    ensures var n := |TreeHeader| + HexSize + 1;
            var m := ParseParents(buf[n..]).1;
            HasAt(buf[n..][m..], 0, AuthorHeader)
  {
  }

  /** `s[..k][n..]` and `s[n..][..k - n]` are the same text. */
  lemma CutAfter(s: seq<char>, n: nat, k: nat)
    requires n <= k <= |s|
    ensures s[..k][n..] == s[n..][..k - n]
  {
  }

  /** Author and committer lines cut short no longer parse. */
  lemma PeopleTruncated(s: seq<char>, j: nat)
    requires ParsePeople(s).Ok? && j < ParsePeople(s).value.1
    ensures ParsePeople(s[..j]).Err?
  {
    var (author, n) := ParseSignature(s, AuthorHeader, '\n').value;
    if j < n {
      SignatureTruncated(s, AuthorHeader, '\n', j);
    } else {
      CommitterTruncated(s, author, n, j);
    }
  }

  /** A cut inside the committer line leaves it unreadable. */
  lemma CommitterTruncated(s: seq<char>, author: Signature, n: nat, j: nat)
    requires Parsed(ParseSignature(s, AuthorHeader, '\n'), author, n) && n <= j <= |s|
    requires ParseSignature(s[n..], CommitterHeader, '\n').Ok? && j - n < ParseSignature(s[n..], CommitterHeader, '\n').value.1
    ensures ParsePeople(s[..j]).Err?
  {
    SignaturePrefix(s, AuthorHeader, '\n', j);
    CutAfter(s, n, j);
    SignatureTruncated(s[n..], CommitterHeader, '\n', j - n);
    PeopleNeedCommitter(s[..j], author, n);
  }

  /** Without a committer line after the author line there is no author and committer. */
  lemma PeopleNeedCommitter(t: seq<char>, author: Signature, n: nat)
    requires Parsed(ParseSignature(t, AuthorHeader, '\n'), author, n)
    requires ParseSignature(t[n..], CommitterHeader, '\n').Err?
    ensures ParsePeople(t).Err?
  {
  }

  /** Dropping text after the committer line leaves the author and committer as they are. */
  lemma PeoplePrefix(s: seq<char>, j: nat)
    requires ParsePeople(s).Ok? && ParsePeople(s).value.1 <= j <= |s|
    ensures Parsed(ParsePeople(s[..j]), ParsePeople(s).value.0, ParsePeople(s).value.1)
  {
    var (author, n) := ParseSignature(s, AuthorHeader, '\n').value;
    SignaturePrefix(s, AuthorHeader, '\n', j);
    CutAfter(s, n, j);
    SignaturePrefix(s[n..], CommitterHeader, '\n', j - n);
  }

  /** Empty text, or text starting with 'p', has no author line. */
  lemma NoAuthorLine(s: seq<char>)
    requires |s| == 0 || s[0] == 'p'
    ensures ParsePeople(s).Err?
  {
    if |s| > 0 {
      assert s[0 + 0] != AuthorHeader[0];
      assert !HasAt(s, 0, AuthorHeader);
    }
  }

  /** Without a tree line there are no headers. */
  lemma HeadersNeedTree(buf: seq<char>)
    requires ParseOidLine(buf, TreeHeader).Err?
    ensures ParseHeaders(buf).Err?
  {
  }

  /** Without author and committer lines after the parent lines there are no headers. */
  lemma HeadersNeedPeople(buf: seq<char>, tree: ObjectId, n: nat)
    requires Parsed(ParseOidLine(buf, TreeHeader), tree, n)
    requires ParsePeople(buf[n..][ParseParents(buf[n..]).1..]).Err?
    ensures ParseHeaders(buf).Err?
  {
  }

  /** Without headers there is no commit. */
  lemma BufferNeedsHeaders(buf: seq<char>)
    requires ParseHeaders(buf).Err?
    ensures ParseBuffer(buf).Err?
  {
  }

  /** The pieces of parsed headers: the tree line, the parent lines, then the author and committer lines. */
  lemma HeadersParts(buf: seq<char>)
    requires ParseHeaders(buf).Ok?
    ensures ParseOidLine(buf, TreeHeader).Ok?
    ensures var n := ParseOidLine(buf, TreeHeader).value.1;
            var m := ParseParents(buf[n..]).1;
            ParsePeople(buf[n..][m..]).Ok? && ParseHeaders(buf).value.1 == n + m + ParsePeople(buf[n..][m..]).value.1
  {
  }

  /** A cut inside the parent lines leaves no author line after them. */
  lemma CutInParents(buf: seq<char>, n: nat, k: nat)
    requires n <= k <= |buf| && k - n < ParseParents(buf[n..]).1
    ensures var u := buf[..k][n..]; ParsePeople(u[ParseParents(u).1..]).Err?
  {
    var rest, j := buf[n..], k - n;
    CutAfter(buf, n, k);
    ParentsCut(rest, j);
    var m' := ParseParents(rest[..j]).1;
    CutAfter(rest, m', j);
    assert m' < j ==> rest[..j][m'..][0] == rest[m'];
    NoAuthorLine(rest[..j][m'..]);
  }

  /** A cut after the parent lines leaves them as they are. */
  lemma ParentsBeforeCut(buf: seq<char>, n: nat, k: nat)
    requires n <= k <= |buf| && ParseParents(buf[n..]).1 <= k - n
    ensures ParseParents(buf[..k][n..]).1 == ParseParents(buf[n..]).1
  {
    CutAfter(buf, n, k);
    ParentsPrefix(buf[n..], k - n);
    assert ParseParents(buf[..k][n..]) == ParseParents(buf[n..][..k - n]);
  }

  /** A cut inside the author and committer lines, seen from after the parent lines. */
  lemma PeopleCut(buf: seq<char>, n: nat, m: nat, k: nat)
    requires n + m <= k <= |buf|
    requires ParsePeople(buf[n..][m..]).Ok? && k - n - m < ParsePeople(buf[n..][m..]).value.1
    ensures ParsePeople(buf[..k][n..][m..]).Err?
  {
    var j := k - n - m;
    assert buf[..k][n..][m..] == buf[n..][m..][..j];
    PeopleTruncated(buf[n..][m..], j);
    assert ParsePeople(buf[..k][n..][m..]) == ParsePeople(buf[n..][m..][..j]);
  }

  /** A cut inside the author and committer lines leaves them unreadable. */
  lemma CutInPeople(buf: seq<char>, n: nat, k: nat)
    requires n <= k <= |buf| && ParseParents(buf[n..]).1 <= k - n
    requires var m := ParseParents(buf[n..]).1;
             ParsePeople(buf[n..][m..]).Ok? && k - n - m < ParsePeople(buf[n..][m..]).value.1
    ensures var u := buf[..k][n..]; ParsePeople(u[ParseParents(u).1..]).Err?
  {
    var m := ParseParents(buf[n..]).1;
    ParentsBeforeCut(buf, n, k);
    PeopleCut(buf, n, m, k);
  }

  /** A cut inside the tree line leaves no headers. */
  lemma CutInTree(buf: seq<char>, k: nat)
    requires ParseOidLine(buf, TreeHeader).Ok? && k < ParseOidLine(buf, TreeHeader).value.1 && k <= |buf|
    ensures ParseHeaders(buf[..k]).Err?
  {
    OidLineTruncated(buf, TreeHeader, k);
    HeadersNeedTree(buf[..k]);
  }

  /** A cut after the tree line but before the end of the committer line leaves no headers. */
  lemma CutAfterTree(buf: seq<char>, tree: ObjectId, n: nat, k: nat)
    requires Parsed(ParseOidLine(buf, TreeHeader), tree, n) && n <= k <= |buf|
    requires var m := ParseParents(buf[n..]).1;
             k - n < m || (ParsePeople(buf[n..][m..]).Ok? && k - n - m < ParsePeople(buf[n..][m..]).value.1)
    ensures ParseHeaders(buf[..k]).Err?
  {
    OidLineLocal(buf, buf[..k], TreeHeader);
    if k - n < ParseParents(buf[n..]).1 {
      CutInParents(buf, n, k);
    } else {
      CutInPeople(buf, n, k);
    }
    HeadersNeedPeople(buf[..k], tree, n);
  }

  /**
   * A buffer cut anywhere before the end of its committer line, mid-keyword,
   * mid-id or mid-signature, is rejected.
   */
  lemma HeadersTruncated(buf: seq<char>, k: nat)
    requires ParseHeaders(buf).Ok? && k < ParseHeaders(buf).value.1
    ensures ParseHeaders(buf[..k]).Err? && ParseBuffer(buf[..k]).Err?
  {
    HeadersParts(buf);
    if k < ParseOidLine(buf, TreeHeader).value.1 {
      CutInTree(buf, k);
    } else {
      var (tree, n) := ParseOidLine(buf, TreeHeader).value;
      CutAfterTree(buf, tree, n, k);
    }
    BufferNeedsHeaders(buf[..k]);
  }

  /**
   * The header parser reads nothing past the committer line: dropping what
   * follows leaves the headers as they are.
   */
  lemma HeadersPrefix(buf: seq<char>, k: nat)
    requires ParseHeaders(buf).Ok? && ParseHeaders(buf).value.1 <= k <= |buf|
    ensures Parsed(ParseHeaders(buf[..k]), ParseHeaders(buf).value.0, ParseHeaders(buf).value.1)
  {
    HeadersParts(buf);
    var (tree, n) := ParseOidLine(buf, TreeHeader).value;
    var (parents, m) := ParseParents(buf[n..]);
    var (people, l) := ParsePeople(buf[n..][m..]).value;
    HeadersOfParts(buf, tree, n, parents, m, people, l);
    PartsPrefix(buf, tree, n, parents, m, people, l, k);
    HeadersOfParts(buf[..k], tree, n, parents, m, people, l);
  }

  /** Dropping what follows the committer line leaves each piece of the headers as it is. */
  lemma PartsPrefix(buf: seq<char>, tree: ObjectId, n: nat, parents: seq<ObjectId>, m: nat,
                    people: (Signature, Signature), l: nat, k: nat)
    requires Parsed(ParseOidLine(buf, TreeHeader), tree, n) && n + m + l <= k <= |buf|
    requires ParseParents(buf[n..]).0 == parents && ParseParents(buf[n..]).1 == m
    requires Parsed(ParsePeople(buf[n..][m..]), people, l)
    ensures Parsed(ParseOidLine(buf[..k], TreeHeader), tree, n)
    ensures ParseParents(buf[..k][n..]).0 == parents && ParseParents(buf[..k][n..]).1 == m
    ensures Parsed(ParsePeople(buf[..k][n..][m..]), people, l)
  {
    TreePartPrefix(buf, tree, n, k);
    ParentsPartPrefix(buf, n, parents, m, k);
    PeoplePartPrefix(buf, n, m, people, l, k);
  }

  /** A cut after the tree line leaves it as it is. */
  lemma TreePartPrefix(buf: seq<char>, tree: ObjectId, n: nat, k: nat)
    requires Parsed(ParseOidLine(buf, TreeHeader), tree, n) && n <= k <= |buf|
    ensures Parsed(ParseOidLine(buf[..k], TreeHeader), tree, n)
  {
    OidLineLocal(buf, buf[..k], TreeHeader);
  }

  /** Headers are read from their tree line, their parent lines and their author and committer lines. */
  lemma HeadersOfParts(v: seq<char>, tree: ObjectId, n: nat, parents: seq<ObjectId>, m: nat,
                       people: (Signature, Signature), l: nat)
    requires Parsed(ParseOidLine(v, TreeHeader), tree, n)
    requires ParseParents(v[n..]).0 == parents && ParseParents(v[n..]).1 == m
    requires Parsed(ParsePeople(v[n..][m..]), people, l)
    ensures Parsed(ParseHeaders(v), Commit(tree, parents, people.0, people.1, []), n + m + l)
  {
  }

  /** A cut after the parent lines leaves them as they are, seen from the whole buffer. */
  lemma ParentsPartPrefix(buf: seq<char>, n: nat, parents: seq<ObjectId>, m: nat, k: nat)
    requires n + m <= k <= |buf|
    requires ParseParents(buf[n..]).0 == parents && ParseParents(buf[n..]).1 == m
    ensures ParseParents(buf[..k][n..]).0 == parents && ParseParents(buf[..k][n..]).1 == m
  {
    CutAfter(buf, n, k);
    ParentsPrefix(buf[n..], k - n);
    assert ParseParents(buf[..k][n..]) == ParseParents(buf[n..][..k - n]);
  }

  /** A cut after the committer line leaves the author and committer as they are, seen from the whole buffer. */
  lemma PeoplePartPrefix(buf: seq<char>, n: nat, m: nat, people: (Signature, Signature), l: nat, k: nat)
    requires n + m + l <= k <= |buf|
    requires Parsed(ParsePeople(buf[n..][m..]), people, l)
    ensures Parsed(ParsePeople(buf[..k][n..][m..]), people, l)
  {
    var j := k - n - m;
    assert buf[..k][n..][m..] == buf[n..][m..][..j];
    PeoplePrefix(buf[n..][m..], j);
    assert ParsePeople(buf[..k][n..][m..]) == ParsePeople(buf[n..][m..][..j]);
  }

  /**
   * Parent `i` of a parsed commit is the id on its `i`-th parent line, the
   * one right after the tree line and `i` other parent lines.
   */
  lemma ParsedParent(buf: seq<char>, i: nat)
    requires ParseBuffer(buf).Ok? && i < ParentCount(ParseBuffer(buf).value)
    ensures var start := |TreeHeader| + HexSize + 1 + i * ParentLineSize;
            start <= |buf| && Parsed(ParseOidLine(buf[start..], ParentHeader), Parent(ParseBuffer(buf).value, i).value, ParentLineSize)
  {
    var n := |TreeHeader| + HexSize + 1;
    ParentLines(buf[n..], i);
    assert buf[n..][i * ParentLineSize..] == buf[n + i * ParentLineSize..];
  }

  // ---------------------------------------------------------------------
  // Accessors

  function ParentCount(c: Commit): (n: nat)
    ensures n == |c.parents|
  {
    |c.parents|
  }

  /** Parent `i`, when there is one. */
  function Parent(c: Commit, i: nat): (r: Result<ObjectId>)
    ensures r.Ok? <==> i < ParentCount(c)
    ensures r.Ok? ==> r.value == c.parents[i]
    ensures r.Err? ==> r.error == OutOfRange
  {
    if i < |c.parents| then Ok(c.parents[i]) else Err(OutOfRange)
  }
}
