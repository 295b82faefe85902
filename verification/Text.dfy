/**
  The string operations of Go's standard library that the model rests on: Split, Join, Trim
  and TrimSpace. Channels store a list as one text: model names joined by commas, keys
  joined by newlines.
 */
module Text {

  /** strings.Split with a one-character separator; never empty. */
  function Split(s: string, sep: char): (parts: seq<string>)
    ensures |parts| > 0
  {
    if s == "" then [""]
    else
      var rest := Split(s[1..], sep);
      if s[0] == sep then [""] + rest else [[s[0]] + rest[0]] + rest[1..]
  }

  /** strings.Join with a one-character separator. */
  function Join(parts: seq<string>, sep: char): string {
    if |parts| == 0 then ""
    else if |parts| == 1 then parts[0]
    else parts[0] + [sep] + Join(parts[1..], sep)
  }

  function DropLeft(s: string, drop: char -> bool): string {
    if s != "" && drop(s[0]) then DropLeft(s[1..], drop) else s
  }

  function DropRight(s: string, drop: char -> bool): string {
    if s != "" && drop(s[|s| - 1]) then DropRight(s[..|s| - 1], drop) else s
  }

  function TrimBy(s: string, drop: char -> bool): string {
    DropRight(DropLeft(s, drop), drop)
  }

  /** strings.Trim with a one-character cutset. */
  function Trim(s: string, cut: char): string {
    TrimBy(s, c => c == cut)
  }

  /** unicode.IsSpace. */
  predicate IsSpace(c: char) {
    || '\t' <= c <= '\r' || c == ' ' || c == '\U{85}' || c == '\U{A0}' || c == '\U{1680}'
    || '\U{2000}' <= c <= '\U{200A}' || c == '\U{2028}' || c == '\U{2029}' || c == '\U{202F}'
    || c == '\U{205F}' || c == '\U{3000}'
  }

  /** The code points that Go takes for white space. */
  lemma SpaceCodes(c: char)
    ensures IsSpace(c) <==>
              c as int in {0x9, 0xA, 0xB, 0xC, 0xD, 0x20, 0x85, 0xA0, 0x1680,
                           0x2000, 0x2001, 0x2002, 0x2003, 0x2004, 0x2005, 0x2006, 0x2007, 0x2008, 0x2009, 0x200A,
                           0x2028, 0x2029, 0x202F, 0x205F, 0x3000}
  {
  }

  function TrimSpace(s: string): string {
    TrimBy(s, IsSpace)
  }

  /** Channel.GetKeys and Channel.GetModels: the list a stored text stands for. */
  function Decode(text: string, sep: char): seq<string> {
    if text == "" then [] else Split(Trim(text, sep), sep)
  }

  predicate SepFree(parts: seq<string>, sep: char) {
    forall i | 0 <= i < |parts| :: sep !in parts[i]
  }

  /** Neither end of the list is the empty string. */
  predicate EndsNonEmpty(parts: seq<string>) {
    parts == [] || (parts[0] != "" && parts[|parts| - 1] != "")
  }

  lemma {:induction false} DropLeftIs(s: string, drop: char -> bool)
    ensures var r := DropLeft(s, drop);
            (r == "" || !drop(r[0])) && |r| <= |s| && r == s[|s| - |r|..]
  {
    if s == "" || !drop(s[0]) {
    } else {
      DropLeftIs(s[1..], drop);
    }
  }

  lemma {:induction false} DropRightIs(s: string, drop: char -> bool)
    ensures var r := DropRight(s, drop);
            (r == "" || !drop(r[|r| - 1])) && |r| <= |s| && r == s[..|r|]
  {
    if s == "" || !drop(s[|s| - 1]) {
    } else {
      DropRightIs(s[..|s| - 1], drop);
    }
  }

  /** Trimming leaves no dropped character at either end, and a substring of the input. */
  lemma TrimByIs(s: string, drop: char -> bool)
    ensures var r := TrimBy(s, drop);
            && (r == "" || (!drop(r[0]) && !drop(r[|r| - 1])))
            && (exists i, j | 0 <= i <= j <= |s| :: r == s[i..j])
  {
    var l := DropLeft(s, drop);
    DropLeftIs(s, drop);
    DropRightIs(l, drop);
    var r := DropRight(l, drop);
    assert r == s[|s| - |l|..|s| - |l| + |r|];
  }

  /** A text without space at its ends stays as it is. */
  lemma TrimSpaceKeepsAll(s: string)
    requires s != "" && !IsSpace(s[0]) && !IsSpace(s[|s| - 1])
    ensures TrimSpace(s) == s
  {
  }

  lemma TrimSpaceIdempotent(s: string)
    ensures TrimSpace(TrimSpace(s)) == TrimSpace(s)
  {
    TrimByIs(s, IsSpace);
  }

  lemma TrimSpaceKeeps(s: string, c: char)
    ensures c in TrimSpace(s) ==> c in s
  {
    TrimByIs(s, IsSpace);
  }

  lemma {:induction false} SplitSepFree(s: string, sep: char)
    ensures SepFree(Split(s, sep), sep)
  {
    if s == "" {
    } else {
      SplitSepFree(s[1..], sep);
    }
  }

  lemma {:induction false} JoinSplit(s: string, sep: char)
    ensures Join(Split(s, sep), sep) == s
  {
    if s == "" {
    } else {
      JoinSplit(s[1..], sep);
      var rest := Split(s[1..], sep);
      var parts := Split(s, sep);
      if s[0] == sep {
        assert parts[1..] == rest;
      } else {
        assert parts[1..] == rest[1..];
      }
    }
  }

  lemma {:induction false} SplitPrefix(a: string, s: string, sep: char)
    requires sep !in a
    ensures Split(a + s, sep) == [a + Split(s, sep)[0]] + Split(s, sep)[1..]
  {
    var rest := Split(s, sep);
    if a == "" {
      assert a + s == s;
      assert a + rest[0] == rest[0];
    } else {
      SplitPrefix(a[1..], s, sep);
      assert (a + s)[1..] == a[1..] + s;
      assert [a[0]] + (a[1..] + rest[0]) == a + rest[0];
    }
  }

  lemma SplitAtSep(a: string, s: string, sep: char)
    requires sep !in a
    ensures Split(a + [sep] + s, sep) == [a] + Split(s, sep)
  {
    SplitPrefix(a, [sep] + s, sep);
    assert ([sep] + s)[1..] == s;
    assert a + [sep] + s == a + ([sep] + s);
    assert a + "" == a;
  }

  lemma {:induction false} SplitJoin(parts: seq<string>, sep: char)
    requires parts != [] && SepFree(parts, sep)
    ensures Split(Join(parts, sep), sep) == parts
  {
    if |parts| == 1 {
      SplitPrefix(parts[0], "", sep);
      assert parts[0] + "" == parts[0];
    } else {
      SplitJoin(parts[1..], sep);
      SplitAtSep(parts[0], Join(parts[1..], sep), sep);
    }
  }

  lemma {:induction false} JoinEnds(parts: seq<string>, sep: char)
    requires parts != [] && SepFree(parts, sep)
    ensures EndsNonEmpty(parts) ==>
              Join(parts, sep) != "" && Join(parts, sep)[0] != sep && Join(parts, sep)[|Join(parts, sep)| - 1] != sep
    ensures !EndsNonEmpty(parts) && |parts| > 1 ==>
              Join(parts, sep)[0] == sep || Join(parts, sep)[|Join(parts, sep)| - 1] == sep
  {
    if |parts| <= 1 {
    } else {
      JoinLast(parts, sep);
    }
  }

  /** The last character of a joined text belongs to the last part, or is the separator. */
  lemma {:induction false} JoinLast(parts: seq<string>, sep: char)
    requires |parts| > 1 && SepFree(parts, sep)
    ensures var j := Join(parts, sep); var last := parts[|parts| - 1];
            j != "" && j[|j| - 1] == if last == "" then sep else last[|last| - 1]
  {
    var rest := parts[1..];
    var j := Join(rest, sep);
    assert Join(parts, sep) == parts[0] + [sep] + j && rest[|rest| - 1] == parts[|parts| - 1];
    if |parts| == 2 {
      assert j == parts[1];
    } else {
      JoinLast(rest, sep);
    }
  }

  /**
    A stored list is read back unchanged exactly when neither of its ends is empty, as long
    as no element contains the separator.
   */
  lemma DecodeJoin(parts: seq<string>, sep: char)
    requires SepFree(parts, sep)
    ensures Decode(Join(parts, sep), sep) == parts <==> EndsNonEmpty(parts)
  {
    if parts != [] {
      var j := Join(parts, sep);
      SplitJoin(parts, sep);
      JoinEnds(parts, sep);
      JoinSplit(Trim(j, sep), sep);
      TrimByIs(j, c => c == sep);
    }
  }

  lemma DecodeSepFree(text: string, sep: char)
    ensures SepFree(Decode(text, sep), sep)
  {
    SplitSepFree(Trim(text, sep), sep);
  }

  // ------------------------------------------------------------------ lists with blank ends

  function StripLeft(parts: seq<string>): seq<string> {
    if parts != [] && parts[0] == "" then StripLeft(parts[1..]) else parts
  }

  function StripRight(parts: seq<string>): seq<string> {
    if parts != [] && parts[|parts| - 1] == "" then StripRight(parts[..|parts| - 1]) else parts
  }

  /** The list without the blank elements at its two ends. */
  function Strip(parts: seq<string>): seq<string> {
    StripRight(StripLeft(parts))
  }

  /** How many elements Strip takes off the front. */
  function Lead(parts: seq<string>): nat {
    if parts != [] && parts[0] == "" then 1 + Lead(parts[1..]) else 0
  }

  lemma {:induction false} StripLeftIs(parts: seq<string>)
    ensures Lead(parts) <= |parts| && StripLeft(parts) == parts[Lead(parts)..]
    ensures StripLeft(parts) == [] || StripLeft(parts)[0] != ""
  {
    if parts == [] || parts[0] != "" {
    } else {
      StripLeftIs(parts[1..]);
    }
  }

  lemma {:induction false} StripRightIs(parts: seq<string>)
    ensures |StripRight(parts)| <= |parts| && StripRight(parts) == parts[..|StripRight(parts)|]
    ensures StripRight(parts) == [] || StripRight(parts)[|StripRight(parts)| - 1] != ""
  {
    if parts == [] || parts[|parts| - 1] != "" {
    } else {
      StripRightIs(parts[..|parts| - 1]);
    }
  }

  /** Strip leaves a stretch of the list with no blank at either end; it is the whole list iff there was none. */
  lemma StripIs(parts: seq<string>)
    ensures Lead(parts) + |Strip(parts)| <= |parts|
    ensures Strip(parts) == parts[Lead(parts)..Lead(parts) + |Strip(parts)|]
    ensures EndsNonEmpty(Strip(parts))
    ensures |Strip(parts)| == |parts| <==> EndsNonEmpty(parts)
  {
    var l := StripLeft(parts);
    StripLeftIs(parts);
    StripRightIs(l);
    assert Strip(parts) == l[..|Strip(parts)|];
    if Strip(parts) != [] {
      assert Strip(parts)[0] == l[0];
    }
    if |Strip(parts)| == |parts| {
      assert Strip(parts) == parts;
    }
    if parts != [] && EndsNonEmpty(parts) {
      assert l == parts && Strip(parts) == parts;
    }
  }

  lemma {:induction false} DropLeftJoin(parts: seq<string>, sep: char, drop: char -> bool)
    requires SepFree(parts, sep) && forall c :: drop(c) <==> c == sep
    ensures DropLeft(Join(parts, sep), drop) == Join(StripLeft(parts), sep)
  {
    if parts == [] || parts == [""] {
    } else if parts[0] == "" {
      DropLeftJoin(parts[1..], sep, drop);
      assert Join(parts, sep)[1..] == Join(parts[1..], sep);
    } else {
      assert Join(parts, sep)[0] == parts[0][0] && parts[0][0] in parts[0];
    }
  }

  lemma {:induction false} JoinSnoc(parts: seq<string>, last: string, sep: char)
    requires parts != []
    ensures Join(parts + [last], sep) == Join(parts, sep) + [sep] + last
  {
    assert (parts + [last])[1..] == parts[1..] + [last];
    if |parts| == 1 {
    } else {
      JoinSnoc(parts[1..], last, sep);
    }
  }

  lemma {:induction false} DropRightJoin(parts: seq<string>, sep: char, drop: char -> bool)
    requires SepFree(parts, sep) && forall c :: drop(c) <==> c == sep
    ensures DropRight(Join(parts, sep), drop) == Join(StripRight(parts), sep)
  {
    if |parts| <= 1 {
      DropRightSingle(parts, sep, drop);
    } else {
      var front, last, text := parts[..|parts| - 1], parts[|parts| - 1], Join(parts, sep);
      assert parts == front + [last];
      JoinSnoc(front, last, sep);
      if last == "" {
        DropRightJoin(front, sep, drop);
        assert text == Join(front, sep) + [sep];
        assert text[..|text| - 1] == Join(front, sep);
      } else {
        assert text[|text| - 1] == last[|last| - 1] && last[|last| - 1] in last;
      }
    }
  }

  lemma DropRightSingle(parts: seq<string>, sep: char, drop: char -> bool)
    requires |parts| <= 1 && SepFree(parts, sep) && forall c :: drop(c) <==> c == sep
    ensures DropRight(Join(parts, sep), drop) == Join(StripRight(parts), sep)
  {
    if |parts| == 1 && parts[0] != "" {
      assert parts[0][|parts[0]| - 1] in parts[0];
    }
  }

  /**
    What a stored list is read back as, for every list: the blank elements at its ends are gone,
    and a text of separators only is one blank element.
   */
  lemma DecodeJoinIs(parts: seq<string>, sep: char)
    requires SepFree(parts, sep) && Join(parts, sep) != ""
    ensures Decode(Join(parts, sep), sep) == if Strip(parts) == [] then [""] else Strip(parts)
  {
    TrimJoin(parts, sep);
    StripIs(parts);
    if Strip(parts) != [] {
      SplitJoin(Strip(parts), sep);
    }
  }

  lemma TrimJoin(parts: seq<string>, sep: char)
    requires SepFree(parts, sep)
    ensures Trim(Join(parts, sep), sep) == Join(Strip(parts), sep)
  {
    var drop := c => c == sep;
    var l := StripLeft(parts);
    DropLeftJoin(parts, sep, drop);
    StripLeftIs(parts);
    assert SepFree(l, sep);
    DropRightJoin(l, sep, drop);
    assert TrimBy(Join(parts, sep), drop) == Join(Strip(parts), sep);
  }

  /** Only the empty list and the list of one blank are stored as the empty text. */
  lemma JoinEmptyIff(parts: seq<string>, sep: char)
    ensures Join(parts, sep) == "" <==> parts == [] || parts == [""]
  {
  }

  /** A list read from a text is empty, a single blank, or has no blank at its ends. */
  lemma DecodeEnds(text: string, sep: char)
    ensures Decode(text, sep) == [""] || EndsNonEmpty(Decode(text, sep))
    ensures Decode(text, sep) == [] <==> text == ""
  {
    if text != "" {
      var trimmed := Trim(text, sep);
      var parts := Split(trimmed, sep);
      TrimByIs(text, c => c == sep);
      SplitSepFree(trimmed, sep);
      JoinSplit(trimmed, sep);
      if |parts| > 1 {
        JoinEnds(parts, sep);
      }
    }
  }
}
