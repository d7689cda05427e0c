/**
 A minimal reading of markup, used as the reference for "every opened
 element is closed": scan the text left to right, keep a stack of open
 element names, push on `<name>`, pop on a matching `</name>`, skip `<?...>`
 declarations and all text outside angle brackets. Text is well tagged when
 the scan never meets a mismatched close or an unterminated `<` and ends
 with nothing open.
 */
module Markup {
  import opened Wrappers
  import opened JavaStrings

  /** The stack of elements still open after scanning `s` from `open`, or None on a tag error. */
  function Scan(s: string, open: seq<string>): Option<seq<string>>
    decreases |s|
  {
    if s == [] then Some(open)
    else if s[0] != '<' then Scan(s[1..], open)
    else
      var j := IndexOf(s, ">", 1);
      if j < 0 then None
      else
        var tag := s[1..j];
        var rest := s[j + 1..];
        if "?" <= tag then Scan(rest, open)
        else if "/" <= tag then
          if open != [] && open[|open| - 1] == tag[1..] then Scan(rest, open[..|open| - 1]) else None
        else Scan(rest, open + [tag])
  }

  /** Every element opened in `s` is closed in `s`, in nesting order. */
  predicate WellTagged(s: string)
  {
    Scan(s, []) == Some([])
  }

  /** A name that can stand between `<` and `>` as an opening tag. */
  predicate PlainName(name: string)
  {
    '>' !in name && name != [] && name[0] != '/' && name[0] != '?'
  }

  function OpenTag(name: string): string { "<" + name + ">" }
  function CloseTag(name: string): string { "</" + name + ">" }

  /** A search that succeeds within `a` finds the same position in any extension of `a`. */
  lemma IndexOfInPrefix(a: string, b: string, pat: string, from: int)
    requires 0 <= from <= |a| && IndexOf(a, pat, from) >= 0
    ensures IndexOf(a + b, pat, from) == IndexOf(a, pat, from)
  {
    var r := IndexOf(a, pat, from);
    var s := a + b;
    assert ClampIndex(s, from) == ClampIndex(a, from);
    assert s[r..r + |pat|] == a[r..r + |pat|];
    assert Occurs(s, pat, r);
    forall i | ClampIndex(s, from) <= i < r ensures !Occurs(s, pat, i) {
      assert !Occurs(a, pat, i);
      assert s[i..i + |pat|] == a[i..i + |pat|];
    }
  }

  /** Scanning a concatenation resumes, after the first part, from where that part left off. */
  lemma {:induction false} ScanAppend(a: string, b: string, open: seq<string>)
    requires Scan(a, open).Some?
    ensures Scan(a + b, open) == Scan(b, Scan(a, open).value)
    decreases |a|, 1
  {
    var s := a + b;
    if a == [] {
      assert s == b;
    } else if a[0] != '<' {
      assert s[0] == a[0];
      assert s[1..] == a[1..] + b;
      ScanAppend(a[1..], b, open);
    } else {
      ScanAppendTag(a, b, open);
    }
  }

  /** `ScanAppend` when `a` starts with a tag: the tag ends inside `a`, so it reads the same in `a + b`. */
  lemma {:induction false} ScanAppendTag(a: string, b: string, open: seq<string>)
    requires a != [] && a[0] == '<' && Scan(a, open).Some?
    ensures Scan(a + b, open) == Scan(b, Scan(a, open).value)
    decreases |a|, 0
  {
    var s := a + b;
    assert s[0] == a[0];
    var j := IndexOf(a, ">", 1);
    IndexOfInPrefix(a, b, ">", 1);
    assert s[1..j] == a[1..j];
    assert s[j + 1..] == a[j + 1..] + b;
    var tag := a[1..j];
    if "?" <= tag {
      ScanAppend(a[j + 1..], b, open);
    } else if "/" <= tag {
      ScanAppend(a[j + 1..], b, open[..|open| - 1]);
    } else {
      ScanAppend(a[j + 1..], b, open + [tag]);
    }
  }

  /** Scanning `a` then `b` in one go. */
  lemma ScanThen(a: string, b: string, open: seq<string>, mid: seq<string>, final: seq<string>)
    requires Scan(a, open) == Some(mid) && Scan(b, mid) == Some(final)
    ensures Scan(a + b, open) == Some(final)
  {
    ScanAppend(a, b, open);
  }

  /** Text without `<` leaves the open elements as they are. */
  lemma {:induction false} ScanText(text: string, open: seq<string>)
    requires '<' !in text
    ensures Scan(text, open) == Some(open)
    decreases |text|
  {
    if text != [] {
      assert text[0] in text;
      ScanText(text[1..], open);
    }
  }

  /** The first `>` of `"<" + body + ">"`, when `body` holds none, closes the tag. */
  lemma TagEnd(body: string)
    requires '>' !in body
    ensures IndexOf("<" + body + ">", ">", 1) == 1 + |body|
  {
    var s := "<" + body + ">";
    var k := 1 + |body|;
    assert s[k..k + 1] == ">";
    assert Occurs(s, ">", k);
    forall i | 1 <= i < k ensures !Occurs(s, ">", i) {
      assert s[i] == body[i - 1];
      assert s[i..i + 1] == [s[i]];
    }
  }

  /** An opening tag pushes its element. */
  lemma ScanOpen(name: string, open: seq<string>)
    requires PlainName(name)
    ensures Scan(OpenTag(name), open) == Some(open + [name])
  {
    var s := OpenTag(name);
    TagEnd(name);
    assert s[1..1 + |name|] == name;
    assert s[2 + |name|..] == [];
    assert !("?" <= name) && !("/" <= name);
  }

  /** A closing tag pops the element it names when that element is the innermost open one. */
  lemma ScanClose(name: string, open: seq<string>)
    requires '>' !in name
    ensures Scan(CloseTag(name), open + [name]) == Some(open)
  {
    var s := CloseTag(name);
    assert s == "<" + ("/" + name) + ">";
    TagEnd("/" + name);
    var tag := s[1..2 + |name|];
    assert tag == "/" + name;
    assert tag[1..] == name;
    assert s[3 + |name|..] == [];
    assert (open + [name])[..|open|] == open;
  }

  /** A `<?...>` declaration opens no element. */
  lemma ScanDeclaration(body: string, open: seq<string>)
    requires '>' !in body && "?" <= body
    ensures Scan("<" + body + ">", open) == Some(open)
  {
    var s := "<" + body + ">";
    TagEnd(body);
    assert s[1..1 + |body|] == body;
    assert s[2 + |body|..] == [];
  }

  /** An element holding only text is balanced on its own. */
  lemma ScanElement(name: string, text: string, open: seq<string>)
    requires PlainName(name) && '<' !in text
    ensures Scan(OpenTag(name) + text + CloseTag(name), open) == Some(open)
  {
    ScanOpen(name, open);
    ScanAppend(OpenTag(name), text, open);
    ScanText(text, open + [name]);
    ScanAppend(OpenTag(name) + text, CloseTag(name), open);
    ScanClose(name, open);
  }

  /** Text, then an opening tag. */
  lemma ScanTextOpen(gap: string, name: string, open: seq<string>)
    requires '<' !in gap && PlainName(name)
    ensures Scan(gap + OpenTag(name), open) == Some(open + [name])
  {
    ScanText(gap, open);
    ScanOpen(name, open);
    ScanThen(gap, OpenTag(name), open, open, open + [name]);
  }

  /** Text, then a closing tag for the innermost open element. */
  lemma ScanTextClose(gap: string, name: string, open: seq<string>)
    requires '<' !in gap && '>' !in name
    ensures Scan(gap + CloseTag(name), open + [name]) == Some(open)
  {
    ScanText(gap, open + [name]);
    ScanClose(name, open);
    ScanThen(gap, CloseTag(name), open + [name], open + [name], open);
  }

  /** Text, then an element holding only text. */
  lemma ScanTextElement(gap: string, name: string, text: string, open: seq<string>)
    requires '<' !in gap && PlainName(name) && '<' !in text
    ensures Scan(gap + (OpenTag(name) + text + CloseTag(name)), open) == Some(open)
  {
    ScanText(gap, open);
    ScanElement(name, text, open);
    ScanThen(gap, OpenTag(name) + text + CloseTag(name), open, open, open);
  }
}
