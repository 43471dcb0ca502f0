/**
 * IntegratedApp's `ChatBot`: a fixed table of keyword replies and
 * `getResponse`, which answers with the reply of a keyword contained in the
 * lower-cased, trimmed input. The table is a `HashMap`, whose iteration order
 * Java leaves unspecified, so the model picks the keyword to try next
 * nondeterministically.
 */
module ChatBot {

  /** The table `loadFAQs` fills. */
  function Faq(): map<string, string> {
    map[
      "hi" := "Hello! How can I assist you?",
      "hello" := "Hi there! What can I do for you?",
      "what is your name" := "I am your AI ChatBot.",
      "bye" := "Goodbye! Have a great day.",
      "hotel" := "We offer Standard, Deluxe, and Suite rooms."
    ]
  }

  const DEFAULT_REPLY: string := "I'm sorry, I didn't understand that. Please try something else."

  /** `Character.toLowerCase` on ASCII letters; every other character is kept. */
  function LowerChar(c: char): char {
    if 'A' <= c <= 'Z' then (c as int + 32) as char else c
  }

  /**
   * `toLowerCase()` on ASCII text: the same length, every upper-case letter
   * replaced by its lower-case letter, every other character kept, so no
   * upper-case letter is left.
   */
  function ToLowerCase(s: string): (t: string)
    ensures |t| == |s|
    ensures forall i :: 0 <= i < |s| && 'A' <= s[i] <= 'Z' ==> t[i] as int == s[i] as int + 32
    ensures forall i :: 0 <= i < |s| && !('A' <= s[i] <= 'Z') ==> t[i] == s[i]
    ensures forall i :: 0 <= i < |t| ==> !('A' <= t[i] <= 'Z')
  {
    seq(|s|, i requires 0 <= i < |s| => LowerChar(s[i]))
  }

  /** Lower-casing changes nothing a second time. */
  lemma ToLowerCaseIsIdempotent(s: string)
    ensures ToLowerCase(ToLowerCase(s)) == ToLowerCase(s)
  {
  }

  /** The characters `String.trim` removes: code points up to and including the space. */
  predicate IsTrimmed(c: char) {
    c <= ' '
  }

  function TrimStart(s: string): (t: string)
    ensures |t| <= |s| && t == s[|s| - |t|..]
    ensures forall k :: 0 <= k < |s| - |t| ==> IsTrimmed(s[k])
    ensures |t| > 0 ==> !IsTrimmed(t[0])
  {
    if |s| > 0 && IsTrimmed(s[0]) then TrimStart(s[1..]) else s
  }

  function TrimEnd(s: string): (t: string)
    ensures |t| <= |s| && t == s[..|t|]
    ensures forall k :: |t| <= k < |s| ==> IsTrimmed(s[k])
    ensures |t| > 0 ==> !IsTrimmed(t[|t| - 1])
  {
    if |s| > 0 && IsTrimmed(s[|s| - 1]) then TrimEnd(s[..|s| - 1]) else s
  }

  /** `t` is `s` from position `i` on, with only characters `trim` removes before and after it. */
  predicate StrippedAt(s: string, t: string, i: nat) {
    && i + |t| <= |s| && t == s[i..i + |t|]
    && (forall k :: 0 <= k < i ==> IsTrimmed(s[k]))
    && (forall k :: i + |t| <= k < |s| ==> IsTrimmed(s[k]))
  }

  /** `String.trim()`: the input without its leading and trailing control characters and spaces. */
  function Trim(s: string): string {
    TrimEnd(TrimStart(s))
  }

  /**
   * What `trim` promises: the result is a contiguous piece of the input, with
   * only removable characters before and after it, and it neither starts nor
   * ends with one.
   */
  lemma TrimStrips(s: string)
    ensures exists i :: StrippedAt(s, Trim(s), i)
    ensures |Trim(s)| > 0 ==> !IsTrimmed(Trim(s)[0]) && !IsTrimmed(Trim(s)[|Trim(s)| - 1])
  {
    var u := TrimStart(s);
    var t := TrimEnd(u);
    assert t == Trim(s);
    StrippedBothEnds(s, u, t);
    assert StrippedAt(s, Trim(s), |s| - |u|);
  }

  /** Stripping a prefix of removable characters, then a suffix of them, leaves a stripped piece of the input. */
  lemma StrippedBothEnds(s: string, u: string, t: string)
    requires |u| <= |s| && u == s[|s| - |u|..] && forall k :: 0 <= k < |s| - |u| ==> IsTrimmed(s[k])
    requires |t| <= |u| && t == u[..|t|] && forall k :: |t| <= k < |u| ==> IsTrimmed(u[k])
    requires |u| > 0 ==> !IsTrimmed(u[0])
    requires |t| > 0 ==> !IsTrimmed(t[|t| - 1])
    ensures StrippedAt(s, t, |s| - |u|)
    ensures |t| > 0 ==> !IsTrimmed(t[0]) && !IsTrimmed(t[|t| - 1])
  {
    var i := |s| - |u|;
    assert t == s[i..i + |t|];
    forall k | i + |t| <= k < |s| ensures IsTrimmed(s[k]) {
      assert s[k] == u[k - i];
    }
    if |t| > 0 {
      assert t[0] == u[0];
    }
  }

  /** The text `getResponse` matches against: `input.toLowerCase().trim()`. */
  function Normalize(input: string): string {
    Trim(ToLowerCase(input))
  }

  /** `text.contains(key)`: `key` occurs in `text` as a contiguous substring. */
  /** `key` occurs in `text` starting at position `i`. */
  predicate OccursAt(text: string, key: string, i: nat) {
    i + |key| <= |text| && text[i..i + |key|] == key
  }

  /** `text.contains(key)`: scans the start positions of `text` in turn. */
  function Contains(text: string, key: string): (found: bool)
    ensures found <==> exists i :: OccursAt(text, key, i)
    decreases |text|
  {
    if key <= text then
      assert OccursAt(text, key, 0);
      true
    else if |text| == 0 then
      assert forall i :: !OccursAt(text, key, i);
      false
    else
      var found := Contains(text[1..], key);
      assert forall i: nat :: OccursAt(text, key, i + 1) <==> OccursAt(text[1..], key, i) by {
        forall i: nat ensures OccursAt(text, key, i + 1) <==> OccursAt(text[1..], key, i) {
          if i + 1 + |key| <= |text| {
            assert text[i + 1..i + 1 + |key|] == text[1..][i..i + |key|];
          }
        }
      }
      assert !OccursAt(text, key, 0);
      assert (exists i :: OccursAt(text, key, i)) ==> exists i :: OccursAt(text[1..], key, i) by {
        if exists i :: OccursAt(text, key, i) {
          var i: nat :| OccursAt(text, key, i);
          assert i > 0 && OccursAt(text[1..], key, i - 1);
        }
      }
      found
  }

  /** A substring found at a position makes the text contain it. */
  lemma {:induction false} ContainsAt(text: string, key: string, i: nat)
    requires i + |key| <= |text| && text[i..i + |key|] == key
    ensures Contains(text, key)
  {
    if i > 0 {
      assert text[1..][i - 1..i - 1 + |key|] == key;
      ContainsAt(text[1..], key, i - 1);
    }
  }

  /** Every text contains itself, so a keyword typed alone is always recognised. */
  lemma ContainsItself(text: string)
    ensures Contains(text, text)
  {
    ContainsAt(text, text, 0);
  }

  /** `reply` is an answer `getResponse` may give to the normalised `text`. */
  predicate IsReply(text: string, reply: string) {
    || (exists key :: key in Faq() && Contains(text, key) && reply == Faq()[key])
    || ((forall key :: key in Faq() ==> !Contains(text, key)) && reply == DEFAULT_REPLY)
  }

  /**
   * `getResponse(input)`: tries the keywords in some order and answers with
   * the reply of the first one the normalised input contains; the default
   * reply when it contains none.
   */
  method GetResponse(input: string) returns (reply: string)
    ensures IsReply(Normalize(input), reply)
  {
    var text := Normalize(input);
    var faq := Faq();
    var keys := faq.Keys;
    while keys != {}
      invariant keys <= faq.Keys
      invariant forall key :: key in faq && key !in keys ==> !Contains(text, key)
      decreases |keys|
    {
      var key :| key in keys;
      if Contains(text, key) {
        return faq[key];
      }
      keys := keys - {key};
    }
    return DEFAULT_REPLY;
  }

  /** When the text contains exactly one keyword, the iteration order no longer matters: the reply is that keyword's. */
  lemma OneKeywordOneReply(text: string, key: string, reply: string)
    requires key in Faq() && Contains(text, key)
    requires forall other :: other in Faq() && other != key ==> !Contains(text, other)
    requires IsReply(text, reply)
    ensures reply == Faq()[key]
  {
  }

  lemma LowerHotel()
    ensures ToLowerCase("  Hotel ") == "  hotel "
  {
    assert LowerChar('H') == 'h';
  }

  /** Trimming a text padded with blanks gives back the text, when the text neither starts nor ends with a blank. */
  lemma TrimPadded(pre: string, w: string, post: string)
    requires forall k :: 0 <= k < |pre| ==> IsTrimmed(pre[k])
    requires forall k :: 0 <= k < |post| ==> IsTrimmed(post[k])
    requires |w| > 0 && !IsTrimmed(w[0]) && !IsTrimmed(w[|w| - 1])
    ensures Trim(pre + w + post) == w
  {
    var s := pre + w + post;
    var t := TrimStart(s);
    assert s[|pre|] == w[0];
    assert s[|pre| + |w| - 1] == w[|w| - 1];
    assert |t| == |w| + |post|;
    assert t == w + post;
    var u := TrimEnd(t);
    assert t[|w| - 1] == w[|w| - 1];
    assert |u| == |w|;
  }

  lemma NormalizeHotel()
    ensures Normalize("  Hotel ") == "hotel"
  {
    LowerHotel();
    assert "  hotel " == "  " + "hotel" + " ";
    TrimPadded("  ", "hotel", " ");
  }

  /** A text shorter than the key cannot contain it. */
  lemma {:induction false} TooShortToContain(text: string, key: string)
    requires |text| < |key|
    ensures !Contains(text, key)
  {
    if |text| > 0 {
      TooShortToContain(text[1..], key);
    }
  }

  /** A key that neither starts the text nor occurs in its tail does not occur in it. */
  lemma NotContainsStep(text: string, key: string, i: nat)
    requires |text| > 0 && i < |key| && i < |text| && text[i] != key[i]
    requires !Contains(text[1..], key)
    ensures !Contains(text, key)
  {
  }

  lemma OnlyHotelKeyword()
    ensures forall other :: other in Faq() && other != "hotel" ==> !Contains("hotel", other)
  {
    TooShortToContain("l", "hi");
    NotContainsStep("el", "hi", 0);
    NotContainsStep("tel", "hi", 0);
    NotContainsStep("otel", "hi", 0);
    NotContainsStep("hotel", "hi", 1);
    TooShortToContain("otel", "hello");
    NotContainsStep("hotel", "hello", 1);
    TooShortToContain("el", "bye");
    NotContainsStep("tel", "bye", 0);
    NotContainsStep("otel", "bye", 0);
    NotContainsStep("hotel", "bye", 0);
    TooShortToContain("hotel", "what is your name");
  }

  /** Asked `  Hotel ` (capitalised, with blanks around it), the bot describes the rooms. */
  lemma HotelQuestion(reply: string)
    requires IsReply(Normalize("  Hotel "), reply)
    ensures reply == "We offer Standard, Deluxe, and Suite rooms."
  {
    NormalizeHotel();
    ContainsItself("hotel");
    OnlyHotelKeyword();
    OneKeywordOneReply("hotel", "hotel", reply);
  }

  /** The default reply is given only when no keyword matches: it is not the reply of any keyword. */
  lemma DefaultIsNoKeywordReply()
    ensures forall key :: key in Faq() ==> Faq()[key] != DEFAULT_REPLY
  {
  }
}
