/**
 The document payload a printer receives, and how `Node.printDocument`
 extracts an author and a title from it.

 A payload that starts with `!PS` is read as pseudo-PostScript: the author
 follows the first `author:` and the title the first `title:`, each running
 to the next `.` or to the end of the payload. Any other payload is plain
 ASCII: its title is fixed and its author is the eight characters at offsets
 8 to 15, when there are that many.
 */
module Documents {
  import opened JavaStrings

  /** A packet travelling the ring; `message` is the document payload. */
  datatype Packet = Packet(origin: string, destination: string, message: string)

  /** What a printer hands on for printing: author, title and the closing note. */
  datatype PrintJob = PrintJob(author: string, title: string, info: string)

  const PostScriptMarker := "!PS"
  const AuthorMarker := "author:"
  const TitleMarker := "title:"
  const DefaultAuthor := "Unknown"
  const DefaultTitle := "Untitled"
  const AsciiTitle := "ASCII DOCUMENT"
  const PostScriptInfo := ">>> Postscript job delivered.\n\n"
  const AsciiInfo := ">>> ASCII Print job delivered.\n\n"
  /** The ASCII author occupies offsets [AsciiAuthorStart, AsciiAuthorEnd). */
  const AsciiAuthorStart := 8
  const AsciiAuthorEnd := 16

  /**
   `v` is the field value that starts at offset `k` of `msg`: it holds no
   `.`, and it is followed by a `.` or by the end of `msg`.
   */
  predicate ValueAt(msg: string, k: int, v: string)
  {
    0 <= k && k + |v| <= |msg| && msg[k..k + |v|] == v && '.' !in v &&
    (k + |v| == |msg| || msg[k + |v|] == '.')
  }

  /** At most one value starts at a given offset. */
  lemma ValueAtUnique(msg: string, k: int, v1: string, v2: string)
    requires ValueAt(msg, k, v1) && ValueAt(msg, k, v2)
    ensures v1 == v2
  {
  }

  /**
   The value of the field introduced by `marker`: what follows the first
   occurrence of `marker` in the whole message, up to the next `.` or the
   end; `dflt` if there is no occurrence. `FieldMeaning` states what it is.
   */
  function Field(msg: string, marker: string, dflt: string): string
  {
    var startPos := IndexOfFirst(msg, marker);
    if startPos < 0 then dflt
    else
      var stop := IndexOf(msg, ".", startPos + |marker|);
      var endPos := if stop < 0 then |msg| else stop;
      msg[startPos + |marker|..endPos]
  }

  /** The text from offset `k` up to the next `.`, or to the end, is a value at `k`. */
  lemma ValueUpToDot(msg: string, k: int)
    requires 0 <= k <= |msg|
    ensures var stop := IndexOf(msg, ".", k);
      ValueAt(msg, k, msg[k..if stop < 0 then |msg| else stop])
  {
    var stop := IndexOf(msg, ".", k);
    var endPos := if stop < 0 then |msg| else stop;
    forall i | k <= i < endPos ensures msg[i] != '.' {
      assert !Occurs(msg, ".", i);
      assert msg[i..i + 1] == [msg[i]];
    }
    assert '.' !in msg[k..endPos];
    if stop >= 0 {
      assert msg[stop..stop + 1] == ".";
    }
  }

  /** Without the marker, the field is the default. */
  lemma FieldAbsent(msg: string, marker: string, dflt: string)
    requires forall i :: !Occurs(msg, marker, i)
    ensures Field(msg, marker, dflt) == dflt
  {
  }

  /** With the marker, the field is the value right after its first occurrence. */
  lemma FieldPresent(msg: string, marker: string, dflt: string, p: int)
    requires FirstOccurrence(msg, marker, p)
    ensures ValueAt(msg, p + |marker|, Field(msg, marker, dflt))
  {
    var startPos := IndexOfFirst(msg, marker);
    assert !(forall i :: !Occurs(msg, marker, i));
    FirstOccurrenceUnique(msg, marker, p, startPos);
    ValueUpToDot(msg, p + |marker|);
  }

  /**
   The field is the default when the marker does not occur; otherwise it is
   the value, free of `.`, that starts right after the marker's first
   occurrence and runs to a `.` or to the end.
   */
  lemma FieldMeaning(msg: string, marker: string, dflt: string)
    ensures (forall i :: !Occurs(msg, marker, i)) ==> Field(msg, marker, dflt) == dflt
    ensures forall p :: FirstOccurrence(msg, marker, p) ==> ValueAt(msg, p + |marker|, Field(msg, marker, dflt))
  {
    if forall i :: !Occurs(msg, marker, i) {
      FieldAbsent(msg, marker, dflt);
    }
    forall p | FirstOccurrence(msg, marker, p)
      ensures ValueAt(msg, p + |marker|, Field(msg, marker, dflt))
    {
      FieldPresent(msg, marker, dflt, p);
    }
  }

  /** The PostScript branch of `printDocument`. */
  function ParsePostScript(msg: string): (job: PrintJob)
    ensures (forall i :: !Occurs(msg, AuthorMarker, i)) ==> job.author == DefaultAuthor
    ensures forall p :: FirstOccurrence(msg, AuthorMarker, p) ==> ValueAt(msg, p + 7, job.author)
    ensures (forall i :: !Occurs(msg, TitleMarker, i)) ==> job.title == DefaultTitle
    ensures forall p :: FirstOccurrence(msg, TitleMarker, p) ==> ValueAt(msg, p + 6, job.title)
    ensures job.info == PostScriptInfo
  {
    FieldMeaning(msg, AuthorMarker, DefaultAuthor);
    FieldMeaning(msg, TitleMarker, DefaultTitle);
    PrintJob(Field(msg, AuthorMarker, DefaultAuthor), Field(msg, TitleMarker, DefaultTitle), PostScriptInfo)
  }

  /** The plain ASCII branch of `printDocument`; it never indexes out of bounds. */
  function ParseAscii(msg: string): (job: PrintJob)
    ensures |msg| >= AsciiAuthorEnd ==> |job.author| == 8 && msg[AsciiAuthorStart..AsciiAuthorEnd] == job.author
    ensures |msg| < AsciiAuthorEnd ==> job.author == DefaultAuthor
    ensures job.title == AsciiTitle && job.info == AsciiInfo
  {
    var author := if |msg| >= AsciiAuthorEnd then msg[AsciiAuthorStart..AsciiAuthorEnd] else DefaultAuthor;
    PrintJob(author, AsciiTitle, AsciiInfo)
  }

  /** A printer's reading of a payload: PostScript when it starts with `!PS`, ASCII otherwise. */
  function ParseDocument(msg: string): (job: PrintJob)
    ensures PostScriptMarker <= msg ==> job.info == PostScriptInfo
    ensures !(PostScriptMarker <= msg) ==> job.info == AsciiInfo && job.title == AsciiTitle
  {
    if PostScriptMarker <= msg then ParsePostScript(msg) else ParseAscii(msg)
  }

  /** `pat` cannot start at `i` when the character at `i + j` differs from its `j`-th. */
  lemma MismatchAt(s: string, pat: string, i: int, j: int)
    requires 0 <= i && 0 <= j < |pat| && i + j < |s| && s[i + j] != pat[j]
    ensures !Occurs(s, pat, i)
  {
  }

  /** The first occurrence of a marker, and the value after it, fix the field. */
  lemma FieldIs(msg: string, marker: string, dflt: string, p: int, v: string)
    requires FirstOccurrence(msg, marker, p) && ValueAt(msg, p + |marker|, v)
    ensures Field(msg, marker, dflt) == v
  {
    FieldMeaning(msg, marker, dflt);
    ValueAtUnique(msg, p + |marker|, Field(msg, marker, dflt), v);
  }

  /** A marker whose first character does not occur in `pre` does not start inside `pre`, whatever follows. */
  lemma HeadLacksMarker(pre: string, rest: string, marker: string)
    requires marker != [] && marker[0] !in pre
    ensures forall i :: 0 <= i < |pre| ==> !Occurs(pre + rest, marker, i)
  {
    var s := pre + rest;
    forall i | 0 <= i < |pre| ensures !Occurs(s, marker, i) {
      assert s[i] == pre[i] && pre[i] in pre;
      MismatchAt(s, marker, i, 0);
    }
  }

  /**
   A marker without `.` that does not occur in a dot-free stretch `v` does not
   start inside `v` or at the `.` after it, whatever surrounds them.
   */
  lemma ValueHidesMarker(pre: string, v: string, post: string, marker: string)
    requires '.' !in marker && forall k :: !Occurs(v, marker, k)
    ensures forall i :: |pre| <= i <= |pre| + |v| ==> !Occurs(pre + v + "." + post, marker, i)
  {
    var s := pre + v + "." + post;
    var d := |pre| + |v|;
    assert s[d] == '.';
    forall i | |pre| <= i <= d ensures !Occurs(s, marker, i) {
      var k := i - |pre|;
      if i + |marker| <= d {
        assert s[i..i + |marker|] == v[k..k + |marker|];
        assert !Occurs(v, marker, k);
      } else if i + |marker| <= |s| {
        assert marker[d - i] in marker;
        MismatchAt(s, marker, i, d - i);
      }
    }
  }

  /** `title:` does not start inside an `author:` marker, whatever precedes or follows it. */
  lemma AuthorMarkerHidesTitle(head: string, rest: string)
    ensures forall i :: |head| <= i < |head| + |AuthorMarker| ==> !Occurs(head + AuthorMarker + rest, TitleMarker, i)
  {
    var s := head + AuthorMarker + rest;
    var h := |head|;
    forall i | h <= i < h + |AuthorMarker| ensures !Occurs(s, TitleMarker, i) {
      assert s[i] == AuthorMarker[i - h];
      if i == h + 2 {
        assert s[i + 1] == AuthorMarker[3];
        MismatchAt(s, TitleMarker, i, 1);
      } else {
        MismatchAt(s, TitleMarker, i, 0);
      }
    }
  }

  /**
   A field written as `marker`, value, `.` after a prefix in which the marker
   does not start: that is the marker's first occurrence, and the value is
   the one read after it.
   */
  lemma MarkedField(pre: string, marker: string, v: string, post: string)
    requires '.' !in v
    requires forall i :: 0 <= i < |pre| ==> !Occurs(pre + marker + v + "." + post, marker, i)
    ensures FirstOccurrence(pre + marker + v + "." + post, marker, |pre|)
    ensures ValueAt(pre + marker + v + "." + post, |pre| + |marker|, v)
  {
    var s := pre + marker + v + "." + post;
    var k := |pre| + |marker|;
    assert s[|pre|..k] == marker;
    assert s[k..k + |v|] == v;
    assert s[k + |v|] == '.';
  }

  /** `a` is a prefix of any extension of it. */
  lemma PrefixOfAppend(a: string, b: string)
    ensures a <= a + b
  {
    assert (a + b)[..|a|] == a;
  }

  /** The marker characters the example payloads rely on. */
  lemma MarkerFacts()
    ensures AuthorMarker != [] && TitleMarker != []
    ensures '.' !in AuthorMarker && '.' !in TitleMarker
    ensures AuthorMarker[0] !in PostScriptMarker + " " && TitleMarker[0] !in PostScriptMarker + " "
    ensures AuthorMarker[0] !in PostScriptMarker + " " + TitleMarker
  {
    assert AuthorMarker[0] == 'a' && TitleMarker[0] == 't';
  }

  /** A payload that starts with `!PS` followed by a space. */
  lemma PostScriptPrefix(rest: string)
    ensures PostScriptMarker <= PostScriptMarker + " " + rest
  {
    AppendAssoc3(PostScriptMarker, " ", rest);
    PrefixOfAppend(PostScriptMarker, " " + rest);
  }

  /** A marker that does not start in `head`, right after it: the field is the value behind it. */
  lemma FieldAfterHead(head: string, marker: string, dflt: string, v: string, post: string)
    requires marker != [] && marker[0] !in head && '.' !in v
    ensures Field(head + marker + v + "." + post, marker, dflt) == v
  {
    var s := head + marker + v + "." + post;
    HeadLacksMarker(head, marker + v + "." + post, marker);
    AppendAssoc5(head, marker, v, ".", post);
    MarkedField(head, marker, v, post);
    FieldIs(s, marker, dflt, |head|, v);
  }

  /**
   A marker that does not start in `head` and does not occur in the dot-free
   value `v` after it is absent from `head + v + "."`: the field keeps its default.
   */
  lemma FieldAbsentAfterValue(head: string, v: string, marker: string, dflt: string)
    requires marker != [] && marker[0] !in head && '.' !in marker
    requires forall k :: !Occurs(v, marker, k)
    ensures Field(head + v + ".", marker, dflt) == dflt
  {
    var s := head + v + ".";
    HeadLacksMarker(head, v + ".", marker);
    assert head + (v + ".") == s;
    ValueHidesMarker(head, v, "", marker);
    assert s + "" == s;
    forall i ensures !Occurs(s, marker, i) {
      if 0 <= i < |head| {
        assert !Occurs(head + (v + "."), marker, i);
      } else if |head| <= i <= |head| + |v| {
        assert !Occurs(s + "", marker, i);
      }
    }
    FieldAbsent(s, marker, dflt);
  }

  /**
   A second field after a first one: when `marker` does not start in `head`
   and does not occur in the first value `v`, it is read after that value.
   */
  lemma FieldAfterValue(head: string, v: string, marker: string, w: string, dflt: string)
    requires '.' !in marker && '.' !in w
    requires forall k :: !Occurs(v, marker, k)
    requires forall i :: 0 <= i < |head| ==> !Occurs(head + (v + "." + marker + w + "."), marker, i)
    ensures Field(head + v + "." + marker + w + ".", marker, dflt) == w
  {
    var pre := head + v + ".";
    var s := pre + marker + w + ".";
    AppendAssoc(pre, marker, w, ".");
    assert head + (v + "." + marker + w + ".") == s;
    ValueHidesMarker(head, v, marker + w + ".", marker);
    assert s + "" == s;
    forall i | 0 <= i < |pre| ensures !Occurs(s + "", marker, i) {
      if i < |head| {
        assert !Occurs(head + (v + "." + marker + w + "."), marker, i);
      } else {
        assert !Occurs(head + v + "." + (marker + w + "."), marker, i);
      }
    }
    MarkedField(pre, marker, w, "");
    FieldIs(s, marker, dflt, |pre|, w);
  }

  /** After `!PS author:`, `title:` has not started yet. */
  lemma AuthorHeadHidesTitle(rest: string)
    ensures forall i :: 0 <= i < |PostScriptMarker + " " + AuthorMarker| ==>
      !Occurs(PostScriptMarker + " " + AuthorMarker + rest, TitleMarker, i)
  {
    var head := PostScriptMarker + " ";
    MarkerFacts();
    HeadLacksMarker(head, AuthorMarker + rest, TitleMarker);
    AppendAssoc3(head, AuthorMarker, rest);
    AuthorMarkerHidesTitle(head, rest);
  }

  /**
   A PostScript payload carrying a title and then an author yields both,
   for every title in which `author:` does not occur.
   */
  lemma PostScriptBothFields(title: string, author: string)
    requires '.' !in title && '.' !in author
    requires forall i :: !Occurs(title, AuthorMarker, i)
    ensures ParseDocument(PostScriptMarker + " " + TitleMarker + title + "." + AuthorMarker + author + ".")
      == PrintJob(author, title, PostScriptInfo)
  {
    var head := PostScriptMarker + " ";
    var msg := head + TitleMarker + title + "." + AuthorMarker + author + ".";
    var tail := AuthorMarker + author + ".";
    MarkerFacts();
    AppendAssoc(head + TitleMarker + title + ".", AuthorMarker, author, ".");
    AppendAssoc5(head, TitleMarker, title, ".", tail);
    PostScriptPrefix(TitleMarker + title + "." + tail);
    FieldAfterHead(head, TitleMarker, DefaultTitle, title, tail);
    HeadLacksMarker(head + TitleMarker, title + "." + AuthorMarker + author + ".", AuthorMarker);
    FieldAfterValue(head + TitleMarker, title, AuthorMarker, author, DefaultAuthor);
  }

  /**
   A PostScript payload carrying an author and then a title yields both,
   for every author in which `title:` does not occur.
   */
  lemma PostScriptAuthorFirst(author: string, title: string)
    requires '.' !in author && '.' !in title
    requires forall i :: !Occurs(author, TitleMarker, i)
    ensures ParseDocument(PostScriptMarker + " " + AuthorMarker + author + "." + TitleMarker + title + ".")
      == PrintJob(author, title, PostScriptInfo)
  {
    var head := PostScriptMarker + " ";
    var msg := head + AuthorMarker + author + "." + TitleMarker + title + ".";
    var tail := TitleMarker + title + ".";
    MarkerFacts();
    AppendAssoc(head + AuthorMarker + author + ".", TitleMarker, title, ".");
    AppendAssoc5(head, AuthorMarker, author, ".", tail);
    PostScriptPrefix(AuthorMarker + author + "." + tail);
    FieldAfterHead(head, AuthorMarker, DefaultAuthor, author, tail);
    AuthorHeadHidesTitle(author + "." + TitleMarker + title + ".");
    FieldAfterValue(head + AuthorMarker, author, TitleMarker, title, DefaultTitle);
  }

  /** Without an `author:` marker the author keeps its default. */
  lemma PostScriptTitleOnly(title: string)
    requires '.' !in title
    requires forall i :: !Occurs(title, AuthorMarker, i)
    ensures ParseDocument(PostScriptMarker + " " + TitleMarker + title + ".")
      == PrintJob(DefaultAuthor, title, PostScriptInfo)
  {
    var head := PostScriptMarker + " ";
    var msg := head + TitleMarker + title + ".";
    MarkerFacts();
    AppendAssoc(head, TitleMarker, title, ".");
    PostScriptPrefix(TitleMarker + title + ".");
    FieldAfterHead(head, TitleMarker, DefaultTitle, title, "");
    assert msg + "" == msg;
    FieldAbsentAfterValue(head + TitleMarker, title, AuthorMarker, DefaultAuthor);
  }

  /** A plain payload of at least 16 characters: the author is its slice [8, 16). */
  lemma AsciiLongPayload(msg: string)
    requires !(PostScriptMarker <= msg) && |msg| >= AsciiAuthorEnd
    ensures ParseDocument(msg) == PrintJob(msg[AsciiAuthorStart..AsciiAuthorEnd], AsciiTitle, AsciiInfo)
  {
  }

  /** A plain payload shorter than 16 characters keeps the default author. */
  lemma AsciiShortPayload(msg: string)
    requires !(PostScriptMarker <= msg) && |msg| < AsciiAuthorEnd
    ensures ParseDocument(msg) == PrintJob(DefaultAuthor, AsciiTitle, AsciiInfo)
  {
  }

  /** The 18-character payload `01234567ABCDEFGHij` has the author `ABCDEFGH`. */
  lemma AsciiLongSample()
    ensures ParseDocument("01234567" + "ABCDEFGH" + "ij") == PrintJob("ABCDEFGH", AsciiTitle, AsciiInfo)
  {
    var msg := "01234567" + "ABCDEFGH" + "ij";
    assert msg[0] == '0';
    assert msg[8..16] == "ABCDEFGH";
    AsciiLongPayload(msg);
  }

  /** The payload `short` keeps the author `Unknown`. */
  lemma AsciiShortSample()
    ensures ParseDocument("short") == PrintJob(DefaultAuthor, AsciiTitle, AsciiInfo)
  {
    assert "short"[0] == 's';
    AsciiShortPayload("short");
  }
}
