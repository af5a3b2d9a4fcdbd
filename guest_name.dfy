/**
 * The guest's name taken from the "to" URL parameter, title-cased word by
 * word: split on " ", upper-case the first character of each word and
 * lower-case the rest, join again with " ". Case mapping is ASCII-only.
 */
module GuestName {
  import opened Wrappers

  predicate IsUpperAscii(c: char) { 'A' <= c <= 'Z' }
  predicate IsLowerAscii(c: char) { 'a' <= c <= 'z' }

  /** toUpperCase on one ASCII character. */
  function UpperChar(c: char): (u: char)
    ensures !IsLowerAscii(u)
    ensures u == ' ' <==> c == ' '
  {
    if IsLowerAscii(c) then (c as int - 32) as char else c
  }

  /** toLowerCase on one ASCII character. */
  function LowerChar(c: char): (l: char)
    ensures !IsUpperAscii(l)
    ensures l == ' ' <==> c == ' '
  {
    if IsUpperAscii(c) then (c as int + 32) as char else c
  }

  predicate NoSpace(w: string) {
    forall i :: 0 <= i < |w| ==> w[i] != ' '
  }

  /** r spells the same letters as w, up to ASCII case. */
  predicate SameUpToCase(r: string, w: string) {
    |r| == |w| && forall i :: 0 <= i < |r| ==> LowerChar(r[i]) == LowerChar(w[i])
  }

  /** A word in title case: no lower-case letter first, no upper-case letter after. */
  predicate IsTitleWord(w: string) {
    (|w| > 0 ==> !IsLowerAscii(w[0])) &&
    forall i :: 1 <= i < |w| ==> !IsUpperAscii(w[i])
  }

  function LowerAll(s: string): (r: string)
    ensures |r| == |s|
  {
    seq(|s|, i requires 0 <= i < |s| => LowerChar(s[i]))
  }

  /** word.charAt(0).toUpperCase() + word.slice(1).toLowerCase(); "" stays "". */
  function FormatWord(w: string): (r: string)
    ensures SameUpToCase(r, w)
    ensures IsTitleWord(r)
    ensures NoSpace(w) ==> NoSpace(r)
  {
    if w == [] then [] else [UpperChar(w[0])] + LowerAll(w[1..])
  }

  /** Formatting a word leaves it alone exactly when it is already in title case. */
  lemma FormatWordFixpoint(w: string)
    ensures FormatWord(w) == w <==> IsTitleWord(w)
  {
    if IsTitleWord(w) && w != [] {
      var r := FormatWord(w);
      forall i | 0 <= i < |w| ensures r[i] == w[i] {
        if i > 0 { assert r[i] == LowerChar(w[i]); }
      }
    }
  }

  function SpaceCount(s: string): nat {
    if s == [] then 0 else (if s[0] == ' ' then 1 else 0) + SpaceCount(s[1..])
  }

  lemma {:induction false} SpaceCountConcat(a: string, b: string)
    ensures SpaceCount(a + b) == SpaceCount(a) + SpaceCount(b)
  {
    if a != [] {
      assert (a + b)[0] == a[0] && (a + b)[1..] == a[1..] + b;
      SpaceCountConcat(a[1..], b);
    } else {
      assert a + b == b;
    }
  }

  lemma {:induction false} NoSpaceCount(w: string)
    ensures NoSpace(w) ==> SpaceCount(w) == 0
  {
    if w != [] {
      NoSpaceCount(w[1..]);
    }
  }

  /** s.split(" "): one more word than there are spaces, none of them holding a space. */
  function Split(s: string): (ws: seq<string>)
    ensures |ws| == SpaceCount(s) + 1
    ensures forall k :: 0 <= k < |ws| ==> NoSpace(ws[k])
  {
    if s == [] then [""]
    else
      var rest := Split(s[1..]);
      if s[0] == ' ' then [""] + rest
      else [[s[0]] + rest[0]] + rest[1..]
  }

  /** ws.join(" "): starts with the first word, and puts one space between neighbours. */
  function Join(ws: seq<string>): (s: string)
    requires |ws| >= 1
    ensures ws[0] <= s
    ensures (forall k :: 0 <= k < |ws| ==> NoSpace(ws[k])) ==> SpaceCount(s) == |ws| - 1
  {
    NoSpaceCount(ws[0]);
    if |ws| == 1 then ws[0]
    else
      var rest := Join(ws[1..]);
      SpaceCountConcat(ws[0] + " ", rest);
      SpaceCountConcat(ws[0], " ");
      ws[0] + " " + rest
  }

  /** The map step: every word title-cased, in place. */
  function FormatWords(ws: seq<string>): (rs: seq<string>)
    ensures |rs| == |ws|
    ensures forall k :: 0 <= k < |ws| ==> IsTitleWord(rs[k]) && SameUpToCase(rs[k], ws[k])
  {
    seq(|ws|, k requires 0 <= k < |ws| => FormatWord(ws[k]))
  }

  /**
   * The formatted name: as long as the input, and its words are the
   * title-cased words of the input, in order.
   */
  function Format(s: string): (r: string)
    ensures |r| == |s|
    ensures Split(r) == FormatWords(Split(s))
  {
    JoinFormatLength(Split(s));
    JoinSplit(s);
    SplitJoin(FormatWords(Split(s)));
    Join(FormatWords(Split(s)))
  }

  /**
   * extractGuestName: the name is written only when the "to" parameter is
   * present and non-empty (a falsy string is skipped).
   */
  function ExtractGuestName(to: Option<string>): (shown: Option<string>)
    ensures shown.Some? <==> to.Some? && to.value != ""
    ensures shown.Some? ==> shown.value == Format(to.value)
    ensures shown.Some? ==> |shown.value| == |to.value| &&
                            |Split(shown.value)| == |Split(to.value)|
  {
    if to.Some? && to.value != "" then Some(Format(to.value)) else None
  }

  // ---- split and join are inverse ----

  lemma {:induction false} JoinSplit(s: string)
    ensures Join(Split(s)) == s
  {
    if s != [] {
      var rest := Split(s[1..]);
      JoinSplit(s[1..]);
      if s[0] == ' ' {
        assert ([""] + rest)[1..] == rest;
        assert s == " " + s[1..];
      } else {
        var ws := [[s[0]] + rest[0]] + rest[1..];
        if |rest| == 1 {
          assert s == [s[0]] + s[1..];
        } else {
          assert ws[1..] == rest[1..];
          assert s == [s[0]] + s[1..];
        }
      }
    }
  }

  /** A word without spaces glues onto the first word of what follows. */
  lemma {:induction false} SplitPrefix(w: string, t: string)
    requires NoSpace(w)
    ensures Split(w + t) == [w + Split(t)[0]] + Split(t)[1..]
  {
    if w != [] {
      SplitPrefix(w[1..], t);
      assert (w + t)[1..] == w[1..] + t;
      assert (w + t)[0] == w[0] != ' ';
      assert [w[0]] + (w[1..] + Split(t)[0]) == w + Split(t)[0];
    } else {
      assert w + t == t;
      assert w + Split(t)[0] == Split(t)[0];
      assert Split(t) == [Split(t)[0]] + Split(t)[1..];
    }
  }

  lemma {:induction false} SplitJoin(ws: seq<string>)
    requires |ws| >= 1
    requires forall k :: 0 <= k < |ws| ==> NoSpace(ws[k])
    ensures Split(Join(ws)) == ws
  {
    if |ws| == 1 {
      SplitPrefix(ws[0], "");
      assert ws[0] + "" == ws[0];
    } else {
      var rest := Join(ws[1..]);
      SplitJoin(ws[1..]);
      assert (" " + rest)[1..] == rest;
      assert Split(" " + rest) == [""] + ws[1..];
      SplitPrefix(ws[0], " " + rest);
      assert ws[0] + " " + rest == ws[0] + (" " + rest);
      assert ws[0] + "" == ws[0];
      assert ws == [ws[0]] + ws[1..];
    }
  }

  // ---- properties of the formatted name ----

  /** Formatting keeps the number of space-separated words. */
  lemma WordCount(s: string)
    ensures |Split(Format(s))| == |Split(s)|
  {
  }

  /** Every word of the result is the title-cased form of the matching input word. */
  lemma WordsTitleCased(s: string)
    ensures |Split(Format(s))| == |Split(s)|
    ensures forall k :: 0 <= k < |Split(s)| ==>
      IsTitleWord(Split(Format(s))[k]) && SameUpToCase(Split(Format(s))[k], Split(s)[k])
  {
  }

  lemma {:induction false} JoinFormatLength(ws: seq<string>)
    requires |ws| >= 1
    ensures |Join(FormatWords(ws))| == |Join(ws)|
  {
    if |ws| > 1 {
      assert FormatWords(ws)[1..] == FormatWords(ws[1..]);
      JoinFormatLength(ws[1..]);
    }
  }

  /** Formatting twice is formatting once. */
  lemma FormatIdempotent(s: string)
    ensures Format(Format(s)) == Format(s)
  {
    var ws := FormatWords(Split(s));
    forall k | 0 <= k < |ws| ensures FormatWord(ws[k]) == ws[k] {
      FormatWordFixpoint(ws[k]);
    }
    assert FormatWords(ws) == ws;
  }
}
