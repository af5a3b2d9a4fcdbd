/**
 * escapeHtml: every occurrence of one of the five HTML-special characters
 * & < > " ' is replaced by its entity; every other character is kept.
 * Unescape is the matching decoder, and Safe describes exactly the strings
 * Escape can produce.
 */
module HtmlEscape {

  predicate IsSpecial(c: char) {
    c == '&' || c == '<' || c == '>' || c == '"' || c == '\''
  }

  /** The replacement table of escapeHtml. */
  function EscapeChar(c: char): (r: string)
    ensures IsSpecial(c) ==> |r| > 1 && r[0] == '&' && r[|r| - 1] == ';'
    ensures !IsSpecial(c) ==> r == [c]
  {
    match c
    case '&' => "&amp;"
    case '<' => "&lt;"
    case '>' => "&gt;"
    case '"' => "&quot;"
    case '\'' => "&#039;"
    case _ => [c]
  }

  /** text.replace(/[&<>"']/g, m => map[m]) */
  function Escape(s: string): (r: string)
    ensures |r| >= |s|
    ensures (forall i :: 0 <= i < |s| ==> !IsSpecial(s[i])) ==> r == s
  {
    if s == [] then [] else EscapeChar(s[0]) + Escape(s[1..])
  }

  /** t begins with one of the five entities Escape writes. */
  predicate StartsWithEntity(t: string) {
    "&amp;" <= t || "&lt;" <= t || "&gt;" <= t || "&quot;" <= t || "&#039;" <= t
  }

  /**
   * No raw < > " ' at all, and every & is the start of one of the five
   * entities: markup cannot be injected through such a string.
   */
  predicate Safe(t: string) {
    forall i :: 0 <= i < |t| ==>
      t[i] != '<' && t[i] != '>' && t[i] != '"' && t[i] != '\'' &&
      (t[i] == '&' ==> StartsWithEntity(t[i..]))
  }

  /** Decodes the five entities back into their characters. */
  function Unescape(t: string): (r: string)
    ensures |r| <= |t|
    decreases |t|
  {
    if t == [] then []
    else if "&amp;" <= t then "&" + Unescape(t[5..])
    else if "&lt;" <= t then "<" + Unescape(t[4..])
    else if "&gt;" <= t then ">" + Unescape(t[4..])
    else if "&quot;" <= t then "\"" + Unescape(t[6..])
    else if "&#039;" <= t then "'" + Unescape(t[6..])
    else [t[0]] + Unescape(t[1..])
  }

  lemma SafeEscapeChar(c: char)
    ensures Safe(EscapeChar(c))
  {
    if IsSpecial(c) {
      SafeEntity(EscapeChar(c));
    }
  }

  /** An entity: it starts with one of the five, and only its first character is special. */
  lemma SafeEntity(r: string)
    requires StartsWithEntity(r)
    requires forall i :: 1 <= i < |r| ==> !IsSpecial(r[i])
    ensures Safe(r)
  {
    assert r[0..] == r;
  }

  lemma {:induction false} SafeConcat(a: string, b: string)
    requires Safe(a) && Safe(b)
    ensures Safe(a + b)
  {
    var t := a + b;
    forall i | 0 <= i < |t| && t[i] == '&'
      ensures StartsWithEntity(t[i..])
    {
      if i < |a| {
        assert t[i..] == a[i..] + b;
        EntityExtends(a[i..], b);
      } else {
        assert t[i..] == b[i - |a|..];
        assert b[i - |a|] == '&';
      }
    }
    forall i | 0 <= i < |t|
      ensures t[i] != '<' && t[i] != '>' && t[i] != '"' && t[i] != '\''
    {
      if i < |a| { assert t[i] == a[i]; } else { assert t[i] == b[i - |a|]; }
    }
  }

  /** Text after an entity does not undo it. */
  lemma EntityExtends(u: string, v: string)
    requires StartsWithEntity(u)
    ensures StartsWithEntity(u + v)
  {
  }

  /** escapeHtml's output can carry no markup: the XSS-safety property. */
  lemma {:induction false} EscapeIsSafe(s: string)
    ensures Safe(Escape(s))
  {
    if s != [] {
      SafeEscapeChar(s[0]);
      EscapeIsSafe(s[1..]);
      SafeConcat(EscapeChar(s[0]), Escape(s[1..]));
    }
  }

  lemma {:induction false} EscapeGrows(s: string, i: nat)
    requires i < |s| && IsSpecial(s[i])
    ensures |Escape(s)| > |s|
  {
    if i > 0 {
      EscapeGrows(s[1..], i - 1);
    }
  }

  /** An input is returned unchanged exactly when it holds none of the five characters. */
  lemma EscapeFixpoint(s: string)
    ensures Escape(s) == s <==> forall i :: 0 <= i < |s| ==> !IsSpecial(s[i])
  {
    if exists i :: 0 <= i < |s| && IsSpecial(s[i]) {
      var i :| 0 <= i < |s| && IsSpecial(s[i]);
      EscapeGrows(s, i);
    }
  }

  lemma UnescapeStep(c: char, rest: string)
    ensures Unescape(EscapeChar(c) + rest) == [c] + Unescape(rest)
  {
    var t := EscapeChar(c) + rest;
    if c == '&' {
      assert "&amp;" <= t;
      assert t[5..] == rest;
    } else if c == '<' {
      assert !("&amp;" <= t) by { assert t[1] == 'l'; }
      assert "&lt;" <= t;
      assert t[4..] == rest;
    } else if c == '>' {
      assert !("&amp;" <= t) by { assert t[1] == 'g'; }
      assert !("&lt;" <= t) by { assert t[1] == 'g'; }
      assert "&gt;" <= t;
      assert t[4..] == rest;
    } else if c == '"' {
      assert !("&amp;" <= t) && !("&lt;" <= t) && !("&gt;" <= t) by { assert t[1] == 'q'; }
      assert "&quot;" <= t;
      assert t[6..] == rest;
    } else if c == '\'' {
      assert !("&amp;" <= t) && !("&lt;" <= t) && !("&gt;" <= t) && !("&quot;" <= t)
        by { assert t[1] == '#'; }
      assert "&#039;" <= t;
      assert t[6..] == rest;
    } else {
      assert t[0] == c && c != '&';
      assert !StartsWithEntity(t);
      assert t[1..] == rest;
    }
  }

  /** Decoding the entities gives back the input exactly. */
  lemma {:induction false} UnescapeEscape(s: string)
    ensures Unescape(Escape(s)) == s
  {
    if s != [] {
      UnescapeStep(s[0], Escape(s[1..]));
      UnescapeEscape(s[1..]);
      assert [s[0]] + s[1..] == s;
    }
  }

  lemma {:induction false} SafeSuffix(t: string, k: nat)
    requires Safe(t) && k <= |t|
    ensures Safe(t[k..])
  {
    var u := t[k..];
    forall i | 0 <= i < |u|
      ensures u[i] != '<' && u[i] != '>' && u[i] != '"' && u[i] != '\''
      ensures u[i] == '&' ==> StartsWithEntity(u[i..])
    {
      assert u[i] == t[k + i];
      assert u[i..] == t[k + i..];
    }
  }

  lemma EscapeCons(c: char, u: string)
    ensures Escape([c] + u) == EscapeChar(c) + Escape(u)
  {
    assert ([c] + u)[1..] == u;
  }

  /** One step of the proof below: t begins with the escape of c, and the rest round-trips. */
  lemma Reassemble(t: string, k: nat, c: char)
    requires 0 < k <= |t| && t[..k] == EscapeChar(c)
    requires Unescape(t) == [c] + Unescape(t[k..])
    requires Escape(Unescape(t[k..])) == t[k..]
    ensures Escape(Unescape(t)) == t
  {
    EscapeCons(c, Unescape(t[k..]));
    assert t == t[..k] + t[k..];
  }

  /** A nonempty Safe string begins with the escape of the first character it decodes to. */
  lemma UnescapeHead(t: string) returns (c: char, k: nat)
    requires Safe(t) && t != []
    ensures 0 < k <= |t| && t[..k] == EscapeChar(c)
    ensures Unescape(t) == [c] + Unescape(t[k..])
  {
    if "&amp;" <= t {
      c, k := '&', 5;
    } else if "&lt;" <= t {
      c, k := '<', 4;
    } else if "&gt;" <= t {
      c, k := '>', 4;
    } else if "&quot;" <= t {
      c, k := '"', 6;
    } else if "&#039;" <= t {
      c, k := '\'', 6;
    } else {
      assert t[0..] == t;
      assert !IsSpecial(t[0]);
      c, k := t[0], 1;
    }
  }

  /** Every Safe string is the escape of its decoding: Safe is exactly Escape's range. */
  lemma {:induction false} EscapeUnescape(t: string)
    requires Safe(t)
    ensures Escape(Unescape(t)) == t
    decreases |t|
  {
    if t != [] {
      var c, k := UnescapeHead(t);
      SafeSuffix(t, k);
      EscapeUnescape(t[k..]);
      Reassemble(t, k, c);
    }
  }
}
