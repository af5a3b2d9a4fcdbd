/**
 * The guestbook: the list of wishes fetched from the spreadsheet endpoint
 * (stored newest first), its rendering with HTML-escaped names and texts,
 * and the submit handler that validates the trimmed inputs before posting.
 * The network is abstracted to the outcome of each request.
 */
module Guestbook {
  import opened Wrappers
  import HtmlEscape

  /** One guestbook entry, as displayMessages reads it. */
  datatype Message = Message(name: string, text: string)

  /** The JSON body of the POST: {name, message}. */
  datatype Payload = Payload(name: string, message: string)

  /** A child of the #messagesList element. */
  datatype Element =
    | Placeholder
    | Item(nameHtml: string, textHtml: string)

  /** The two inputs of the message form. */
  datatype Field = NameInput | TextInput

  const MinNameLength: nat := 2
  const MinTextLength: nat := 5

  /** The toasts the submit handler shows. */
  datatype Toast = NameTooShortToast | TextTooShortToast | SentToast | SendFailedToast

  /** The text of each toast. */
  function ToastText(t: Toast): (text: string)
    ensures text != []
    ensures (t == NameTooShortToast || t == TextTooShortToast) <==> text[0] in "NP"
  {
    match t
    case NameTooShortToast => "Nama harus diisi minimal 2 karakter"
    case TextTooShortToast => "Pesan harus diisi minimal 5 karakter"
    case SentToast => "Ucapan berhasil dikirim"
    case SendFailedToast => "Terjadi kesalahan saat mengirim pesan"
  }

  /** Different toasts show different texts. */
  lemma ToastTextInjective(a: Toast, b: Toast)
    ensures ToastText(a) == ToastText(b) ==> a == b
  {
    if a != b {
      assert ToastText(a)[0] != ToastText(b)[0];
    }
  }

  // ---- String.prototype.trim ----

  /** The characters trim removes: ECMAScript WhiteSpace and LineTerminator. */
  predicate IsJsWhitespace(c: char)
    ensures c == ' ' || c == '\t' || c == '\n' || c == '\r' ==> IsJsWhitespace(c)
    ensures IsJsWhitespace(c) ==> c < '\U{10000}'
  {
    c == '\t' || c == '\n' || c == '\U{B}' || c == '\U{C}' || c == '\r' || c == ' ' ||
    c == '\U{A0}' || c == '\U{1680}' || ('\U{2000}' <= c <= '\U{200A}') ||
    c == '\U{2028}' || c == '\U{2029}' || c == '\U{202F}' || c == '\U{205F}' ||
    c == '\U{3000}' || c == '\U{FEFF}'
  }

  /** Neither the first nor the last character is whitespace. */
  predicate IsTrimmed(t: string) {
    t == [] || (!IsJsWhitespace(t[0]) && !IsJsWhitespace(t[|t| - 1]))
  }

  function TrimStart(s: string): (r: string)
    ensures |r| <= |s| && r == s[|s| - |r|..]
    ensures forall i :: 0 <= i < |s| - |r| ==> IsJsWhitespace(s[i])
    ensures r != [] ==> !IsJsWhitespace(r[0])
  {
    if s != [] && IsJsWhitespace(s[0]) then
      var r := TrimStart(s[1..]);
      assert s[1..][|s| - 1 - |r|..] == s[|s| - |r|..];
      assert forall i :: 1 <= i < |s| - |r| ==> s[i] == s[1..][i - 1];
      r
    else s
  }

  function TrimEnd(s: string): (r: string)
    ensures |r| <= |s| && r == s[..|r|]
    ensures forall i :: |r| <= i < |s| ==> IsJsWhitespace(s[i])
    ensures r != [] ==> !IsJsWhitespace(r[|r| - 1])
  {
    if s != [] && IsJsWhitespace(s[|s| - 1]) then
      var r := TrimEnd(s[..|s| - 1]);
      assert s[..|s| - 1][..|r|] == s[..|r|];
      assert forall i :: |r| <= i < |s| - 1 ==> s[i] == s[..|s| - 1][i];
      r
    else s
  }

  /** r is the slice of s starting at i, and everything around it is whitespace. */
  predicate TrimmedAt(s: string, r: string, i: int) {
    0 <= i && i + |r| <= |s| && r == s[i..i + |r|] &&
    (forall k :: 0 <= k < i ==> IsJsWhitespace(s[k])) &&
    (forall k :: i + |r| <= k < |s| ==> IsJsWhitespace(s[k]))
  }

  /** s.trim(): the middle part of s with the whitespace at both ends removed. */
  function Trim(s: string): (r: string)
    ensures IsTrimmed(r)
  {
    TrimEnd(TrimStart(s))
  }

  /** trim() removes whitespace at the ends and nothing else: the result is a slice of s. */
  lemma TrimIsSlice(s: string)
    ensures exists i :: TrimmedAt(s, Trim(s), i)
  {
    var t := TrimStart(s);
    var i := |s| - |t|;
    PrefixOfSuffix(s, t, TrimEnd(t), i);
    assert TrimmedAt(s, Trim(s), i);
  }

  /** A prefix r of the suffix t of s that only whitespace surrounds is trimmed at i. */
  lemma PrefixOfSuffix(s: string, t: string, r: string, i: int)
    requires 0 <= i <= |s| && t == s[i..] && |r| <= |t| && r == t[..|r|]
    requires forall k :: 0 <= k < i ==> IsJsWhitespace(s[k])
    requires forall k :: |r| <= k < |t| ==> IsJsWhitespace(t[k])
    ensures TrimmedAt(s, r, i)
  {
    forall k | i + |r| <= k < |s| ensures IsJsWhitespace(s[k]) {
      assert s[k] == t[k - i];
    }
  }

  /** A string is its own trim exactly when it has no whitespace at either end. */
  lemma TrimFixpoint(t: string)
    ensures Trim(t) == t <==> IsTrimmed(t)
  {
  }

  /** Trimming twice is trimming once. */
  lemma TrimIdempotent(s: string)
    ensures Trim(Trim(s)) == Trim(s)
  {
    TrimFixpoint(Trim(s));
  }

  // ---- validation of the submit handler ----

  datatype Verdict =
    | NameTooShort
    | TextTooShort
    | Accepted(payload: Payload)

  /**
   * String.prototype.length: the number of UTF-16 code units, so a
   * character outside the Basic Multilingual Plane (an emoji) counts twice.
   */
  function Utf16Length(s: string): (n: nat)
    ensures |s| <= n <= 2 * |s|
  {
    Utf16LengthFrom(s, 0)
  }

  /** The code units of s[i..]. */
  function Utf16LengthFrom(s: string, i: nat): (n: nat)
    requires i <= |s|
    ensures |s| - i <= n <= 2 * (|s| - i)
    decreases |s| - i
  {
    if i == |s| then 0
    else (if s[i] < '\U{10000}' then 1 else 2) + Utf16LengthFrom(s, i + 1)
  }

  /** The code-unit count equals the character count exactly when no character lies beyond U+FFFF. */
  lemma Utf16LengthBmp(s: string)
    ensures Utf16Length(s) == |s| <==> forall i :: 0 <= i < |s| ==> s[i] < '\U{10000}'
  {
    Utf16LengthFromBmp(s, 0);
  }

  lemma {:induction false} Utf16LengthFromBmp(s: string, i: nat)
    requires i <= |s|
    ensures Utf16LengthFrom(s, i) == |s| - i <==> forall k :: i <= k < |s| ==> s[k] < '\U{10000}'
    decreases |s| - i
  {
    if i < |s| {
      Utf16LengthFromBmp(s, i + 1);
    }
  }

  /** The checks of the submit handler: the name first, then the text, on the trimmed inputs. */
  function Validate(rawName: string, rawText: string): (v: Verdict)
    ensures v.NameTooShort? <==> Utf16Length(Trim(rawName)) < MinNameLength
    ensures v.TextTooShort? <==>
      Utf16Length(Trim(rawName)) >= MinNameLength && Utf16Length(Trim(rawText)) < MinTextLength
    ensures v.Accepted? ==> v.payload == Payload(Trim(rawName), Trim(rawText))
  {
    var name := Trim(rawName);
    var text := Trim(rawText);
    if Utf16Length(name) < MinNameLength then NameTooShort
    else if Utf16Length(text) < MinTextLength then TextTooShort
    else Accepted(Payload(name, text))
  }

  /**
   * What gets posted is already trimmed and long enough: validating the
   * payload again accepts it unchanged.
   */
  lemma AcceptedPayloadIsValid(rawName: string, rawText: string)
    requires Validate(rawName, rawText).Accepted?
    ensures var p := Validate(rawName, rawText).payload;
      IsTrimmed(p.name) && Utf16Length(p.name) >= MinNameLength &&
      IsTrimmed(p.message) && Utf16Length(p.message) >= MinTextLength &&
      Validate(p.name, p.message) == Accepted(p)
  {
    TrimIdempotent(rawName);
    TrimIdempotent(rawText);
  }

  /** Trimmed inputs of sufficient length are posted as they are. */
  lemma ValidateTrimmed(name: string, text: string)
    requires IsTrimmed(name) && Utf16Length(name) >= MinNameLength
    requires IsTrimmed(text) && Utf16Length(text) >= MinTextLength
    ensures Validate(name, text) == Accepted(Payload(name, text))
  {
    TrimFixpoint(name);
    TrimFixpoint(text);
  }

  /** Characters beyond U+FFFF count two code units each. */
  lemma {:induction false} Utf16LengthFromAstral(s: string, i: nat)
    requires i <= |s|
    requires forall k :: i <= k < |s| ==> s[k] >= '\U{10000}'
    ensures Utf16LengthFrom(s, i) == 2 * (|s| - i)
    decreases |s| - i
  {
    if i < |s| {
      Utf16LengthFromAstral(s, i + 1);
    }
  }

  /**
   * Emoji count two code units each: a name of one emoji and a text of
   * three are long enough, although they have fewer characters than the
   * minimums.
   */
  lemma EmojiCountTwice(name: string, text: string)
    requires |name| >= 1 && forall k :: 0 <= k < |name| ==> name[k] >= '\U{10000}'
    requires |text| >= 3 && forall k :: 0 <= k < |text| ==> text[k] >= '\U{10000}'
    ensures Validate(name, text) == Accepted(Payload(name, text))
  {
    Utf16LengthFromAstral(name, 0);
    Utf16LengthFromAstral(text, 0);
    ValidateTrimmed(name, text);
  }

  // ---- the stored list and its rendering ----

  /** Array.prototype.reverse, as a value. */
  function Reverse<T>(s: seq<T>): (r: seq<T>)
    ensures |r| == |s|
    ensures forall k :: 0 <= k < |s| ==> r[k] == s[|s| - 1 - k]
  {
    if s == [] then [] else Reverse(s[1..]) + [s[0]]
  }

  lemma ReverseReverse<T>(s: seq<T>)
    ensures Reverse(Reverse(s)) == s
  {
  }

  /** The stored list after a load: the fetched array reversed, or [] after any error. */
  function Loaded(response: Option<seq<Message>>): (ms: seq<Message>)
    ensures response.None? ==> ms == []
    ensures response.Some? ==>
      |ms| == |response.value| &&
      (forall k :: 0 <= k < |ms| ==> ms[k] == response.value[|ms| - 1 - k])
  {
    if response.Some? then Reverse(response.value) else []
  }

  /** One message-item div: the name and the text, each escaped. */
  function RenderItem(m: Message): (e: Element)
    ensures e.Item?
    ensures HtmlEscape.Unescape(e.nameHtml) == m.name && HtmlEscape.Unescape(e.textHtml) == m.text
  {
    HtmlEscape.UnescapeEscape(m.name);
    HtmlEscape.UnescapeEscape(m.text);
    Item(HtmlEscape.Escape(m.name), HtmlEscape.Escape(m.text))
  }

  /** The children displayMessages leaves in #messagesList. */
  function Rendered(ms: seq<Message>): (els: seq<Element>)
    ensures ms == [] ==> els == [Placeholder]
    ensures ms != [] ==> |els| == |ms| && forall k :: 0 <= k < |ms| ==> els[k] == RenderItem(ms[k])
  {
    if ms == [] then [Placeholder]
    else seq(|ms|, k requires 0 <= k < |ms| => RenderItem(ms[k]))
  }

  /** A nonempty list whose item k renders message k is the rendering. */
  lemma RenderedOf(ms: seq<Message>, els: seq<Element>)
    requires ms != [] && |els| == |ms|
    requires forall k :: 0 <= k < |ms| ==> els[k] == RenderItem(ms[k])
    ensures els == Rendered(ms)
  {
  }

  /** The placeholder appears, and then alone, exactly when there is nothing to show. */
  lemma PlaceholderIffEmpty(ms: seq<Message>)
    ensures Placeholder in Rendered(ms) <==> ms == []
    ensures ms == [] ==> forall e :: e in Rendered(ms) ==> e == Placeholder
  {
  }

  /** No rendered name or text can inject markup. */
  lemma RenderedIsSafe(ms: seq<Message>)
    ensures forall e :: e in Rendered(ms) && e.Item? ==>
      HtmlEscape.Safe(e.nameHtml) && HtmlEscape.Safe(e.textHtml)
  {
    forall e | e in Rendered(ms) && e.Item?
      ensures HtmlEscape.Safe(e.nameHtml) && HtmlEscape.Safe(e.textHtml)
    {
      var k :| 0 <= k < |ms| && e == RenderItem(ms[k]);
      HtmlEscape.EscapeIsSafe(ms[k].name);
      HtmlEscape.EscapeIsSafe(ms[k].text);
    }
  }

  function RecoverItem(e: Element): Message {
    match e
    case Item(n, t) => Message(HtmlEscape.Unescape(n), HtmlEscape.Unescape(t))
    case Placeholder => Message("", "")
  }

  /** Reads the messages back from the rendered list. */
  function Recover(els: seq<Element>): (ms: seq<Message>) {
    if els == [Placeholder] then []
    else seq(|els|, k requires 0 <= k < |els| => RecoverItem(els[k]))
  }

  /** Rendering loses nothing: every message, in order, can be read back from the list. */
  lemma RecoverRendered(ms: seq<Message>)
    ensures Recover(Rendered(ms)) == ms
  {
    if ms != [] {
      var els := Rendered(ms);
      assert els != [Placeholder] by { assert els[0].Item?; }
      forall k | 0 <= k < |ms| ensures Recover(els)[k] == ms[k] {
        HtmlEscape.UnescapeEscape(ms[k].name);
        HtmlEscape.UnescapeEscape(ms[k].text);
      }
    }
  }

  class MessageBoard {
    /** The global messages, newest first. */
    var messages: seq<Message>
    /** The children of #messagesList. */
    var list: seq<Element>
    /** The value of the #messageName input. */
    var nameInput: string
    /** The value of the #messageText input. */
    var textInput: string
    /** The text of the last toast shown, if any. */
    var toast: Option<Toast>
    /** The input that last received focus from the handler, if any. */
    var focus: Option<Field>
    /** Every POST sent to the endpoint, oldest first. */
    var posts: seq<Payload>

    constructor ()
      ensures messages == [] && list == [] && posts == []
      ensures nameInput == "" && textInput == "" && toast == None && focus == None
    {
      messages := [];
      list := [];
      nameInput := "";
      textInput := "";
      toast := None;
      focus := None;
      posts := [];
    }

    /** The guest types into the two inputs. */
    method Fill(name: string, text: string)
      modifies this`nameInput, this`textInput
      ensures nameInput == name && textInput == text
    {
      nameInput, textInput := name, text;
    }

    /** displayMessages: clear the list, then the placeholder or one item per message. */
    method DisplayMessages()
      modifies this`list
      ensures list == Rendered(messages)
    {
      var ms := messages;
      list := [];
      if |ms| == 0 {
        list := [Placeholder];
        return;
      }
      for k := 0 to |ms|
        invariant |list| == k
        invariant forall j :: 0 <= j < k ==> list[j] == RenderItem(ms[j])
      {
        var e := RenderItem(ms[k]);
        list := list + [e];
      }
      RenderedOf(ms, list);
    }

    /**
     * loadMessages, given what the GET produced: the fetched array, or None
     * when the request, the JSON parsing or the reversal threw.
     */
    method LoadMessages(response: Option<seq<Message>>)
      modifies this`messages, this`list
      ensures messages == Loaded(response)
      ensures list == Rendered(messages)
    {
      if response.Some? {
        messages := Reverse(response.value);
      } else {
        messages := [];
      }
      DisplayMessages();
    }

    /**
     * The submit handler as it stands. postResolves tells whether the POST's
     * fetch completed without throwing. After a successful POST the handler
     * clears the inputs and then calls loadMessagesFromSheet, which is not
     * defined in script.js: the ReferenceError lands in the catch, so the failure
     * toast is shown and the list is not reloaded.
     */
    method Submit(postResolves: bool)
      modifies this`nameInput, this`textInput, this`toast, this`focus, this`posts
      ensures var v := Validate(old(nameInput), old(textInput));
        && (v.NameTooShort? ==>
              toast == Some(NameTooShortToast) && focus == Some(NameInput) &&
              posts == old(posts) && nameInput == old(nameInput) && textInput == old(textInput))
        && (v.TextTooShort? ==>
              toast == Some(TextTooShortToast) && focus == Some(TextInput) &&
              posts == old(posts) && nameInput == old(nameInput) && textInput == old(textInput))
        && (v.Accepted? ==>
              posts == old(posts) + [v.payload] && focus == old(focus) &&
              toast == Some(SendFailedToast) &&
              (if postResolves then nameInput == "" && textInput == ""
               else nameInput == old(nameInput) && textInput == old(textInput)))
      ensures toast != Some(SentToast)
    {
      var verdict := Validate(nameInput, textInput);
      match verdict {
        case NameTooShort =>
          Reject(NameTooShortToast, NameInput);
        case TextTooShort =>
          Reject(TextTooShortToast, TextInput);
        case Accepted(payload) =>
          SendAsWritten(payload, postResolves);
      }
    }

    /**
     * The handler as evidently intended: after a successful POST the inputs
     * are cleared, the list is reloaded with loadMessages (given the GET's
     * result) and the success toast is shown.
     */
    method SubmitFixed(postResolves: bool, reload: Option<seq<Message>>)
      modifies this
      ensures var v := Validate(old(nameInput), old(textInput));
        && (v.NameTooShort? ==>
              toast == Some(NameTooShortToast) && focus == Some(NameInput) &&
              posts == old(posts) && nameInput == old(nameInput) && textInput == old(textInput) &&
              messages == old(messages) && list == old(list))
        && (v.TextTooShort? ==>
              toast == Some(TextTooShortToast) && focus == Some(TextInput) &&
              posts == old(posts) && nameInput == old(nameInput) && textInput == old(textInput) &&
              messages == old(messages) && list == old(list))
        && (v.Accepted? ==> posts == old(posts) + [v.payload] && focus == old(focus))
        && (v.Accepted? && postResolves ==>
              nameInput == "" && textInput == "" && toast == Some(SentToast) &&
              messages == Loaded(reload) && list == Rendered(messages))
        && (v.Accepted? && !postResolves ==>
              toast == Some(SendFailedToast) &&
              nameInput == old(nameInput) && textInput == old(textInput) &&
              messages == old(messages) && list == old(list))
      ensures toast == Some(SentToast) <==> Validate(old(nameInput), old(textInput)).Accepted? && postResolves
    {
      var verdict := Validate(nameInput, textInput);
      match verdict {
        case NameTooShort =>
          Reject(NameTooShortToast, NameInput);
        case TextTooShort =>
          Reject(TextTooShortToast, TextInput);
        case Accepted(payload) =>
          Send(payload, postResolves, reload);
      }
    }

    /**
     * The POST of an accepted payload in the handler as written: either the
     * POST threw, or the call to loadMessagesFromSheet after clearing the
     * inputs did.
     */
    method SendAsWritten(payload: Payload, postResolves: bool)
      modifies this`posts, this`nameInput, this`textInput, this`toast
      ensures posts == old(posts) + [payload] && toast == Some(SendFailedToast)
      ensures postResolves ==> nameInput == "" && textInput == ""
      ensures !postResolves ==> nameInput == old(nameInput) && textInput == old(textInput)
    {
      posts := posts + [payload];
      if postResolves {
        nameInput, textInput := "", "";
      }
      toast := Some(SendFailedToast);
    }

    /** The validation branch: a toast and the focus on the offending input. */
    method Reject(t: Toast, f: Field)
      modifies this`toast, this`focus
      ensures toast == Some(t) && focus == Some(f)
    {
      toast, focus := Some(t), Some(f);
    }

    /** The POST of an accepted payload and what follows it in the fixed handler. */
    method Send(payload: Payload, postResolves: bool, reload: Option<seq<Message>>)
      modifies this`posts, this`nameInput, this`textInput, this`messages, this`list, this`toast
      ensures posts == old(posts) + [payload]
      ensures postResolves ==>
        nameInput == "" && textInput == "" && toast == Some(SentToast) &&
        messages == Loaded(reload) && list == Rendered(messages)
      ensures !postResolves ==> toast == Some(SendFailedToast) && unchanged(this`nameInput, this`textInput, this`messages, this`list)
    {
      posts := posts + [payload];
      if postResolves {
        nameInput, textInput := "", "";
        LoadMessages(reload);
        toast := Some(SentToast);
      } else {
        toast := Some(SendFailedToast);
      }
    }
  }
}
