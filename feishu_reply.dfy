/**
 * The `content` field of the reply the webhook path posts back to the chat
 * platform: a JSON object `{"text": answer}` written out by hand, with each
 * newline of the answer replaced by the two characters backslash and `n`.
 *
 * A reader of JSON string bodies (section 7 of RFC 8259) gives the
 * meaning of such a content. As written, only newlines are
 * escaped, so an answer holding a double quote or a backslash is not
 * carried faithfully; `JsonReplyContent` is the corrected construction and
 * reads back as the answer for every answer.
 */
module FeishuReply {
  import opened Common

  const ReplyHead: string := "{\"text\":\""
  const ReplyFoot: string := "\"}"

  /** Python's `s.replace("\n", "\\n")`. */
  function EscapeNewlines(s: string): (r: string)
    ensures '\n' !in r
    ensures |r| == |s| + NewlineCount(s)
    decreases |s|
  {
    if s == [] then ""
    else (if s[0] == '\n' then "\\n" else [s[0]]) + EscapeNewlines(s[1..])
  }

  function NewlineCount(s: string): nat
    decreases |s|
  {
    if s == [] then 0 else (if s[0] == '\n' then 1 else 0) + NewlineCount(s[1..])
  }

  /** The reply content as the webhook handler builds it. */
  function ReplyContent(answer: string): (r: string)
    ensures '\n' !in r
  {
    ReplyHead + EscapeNewlines(answer) + ReplyFoot
  }

  // ----- Reading JSON string bodies -----

  /** The code points JSON requires to be escaped inside a string. */
  predicate IsControl(c: char) {
    c < ' '
  }

  function HexValue(c: char): Option<nat> {
    if '0' <= c <= '9' then Some(c as int - '0' as int)
    else if 'a' <= c <= 'f' then Some(c as int - 'a' as int + 10)
    else if 'A' <= c <= 'F' then Some(c as int - 'A' as int + 10)
    else None
  }

  /** The value of four hexadecimal digits, as in `\uXXXX`. */
  function Hex4(h: string): (r: Option<nat>)
    requires |h| == 4
    ensures r.Some? ==> r.value < 0x1_0000
  {
    match (HexValue(h[0]), HexValue(h[1]), HexValue(h[2]), HexValue(h[3]))
    case (Some(a), Some(b), Some(c), Some(d)) =>
      if a < 16 && b < 16 && c < 16 && d < 16 then Some(((a * 16 + b) * 16 + c) * 16 + d) else None
    case _ => None
  }

  function Prepend(c: char, rest: Option<string>): Option<string> {
    match rest
    case None => None
    case Some(t) => Some([c] + t)
  }

  /**
   * The text a JSON string body (what stands between the quotes) denotes,
   * or `None` when the body is not valid: a bare quote, a bare control
   * character, or an unknown escape. Escapes naming a surrogate code point
   * are refused as well; the encoders below never produce them.
   */
  function DecodeBody(s: string): Option<string>
    decreases |s|
  {
    if s == [] then Some("")
    else if s[0] == '"' || IsControl(s[0]) then None
    else if s[0] != '\\' then Prepend(s[0], DecodeBody(s[1..]))
    else if |s| < 2 then None
    else if s[1] == '"' then Prepend('"', DecodeBody(s[2..]))
    else if s[1] == '\\' then Prepend('\\', DecodeBody(s[2..]))
    else if s[1] == '/' then Prepend('/', DecodeBody(s[2..]))
    else if s[1] == 'b' then Prepend('\U{8}', DecodeBody(s[2..]))
    else if s[1] == 'f' then Prepend('\U{C}', DecodeBody(s[2..]))
    else if s[1] == 'n' then Prepend('\n', DecodeBody(s[2..]))
    else if s[1] == 'r' then Prepend('\r', DecodeBody(s[2..]))
    else if s[1] == 't' then Prepend('\t', DecodeBody(s[2..]))
    else if s[1] == 'u' && |s| >= 6 then
      match Hex4(s[2..6])
      case None => None
      case Some(v) => if 0xD800 <= v < 0xE000 then None else Prepend(v as char, DecodeBody(s[6..]))
    else None
  }

  /** The `text` member of a content of the shape `{"text":"…"}`. */
  function ReadText(content: string): Option<string> {
    if |content| < |ReplyHead| + |ReplyFoot| then None
    else if content[..|ReplyHead|] != ReplyHead || content[|content| - |ReplyFoot|..] != ReplyFoot then None
    else DecodeBody(content[|ReplyHead|..|content| - |ReplyFoot|])
  }

  lemma ReadTextOfBody(body: string)
    ensures ReadText(ReplyHead + body + ReplyFoot) == DecodeBody(body)
  {
    var c := ReplyHead + body + ReplyFoot;
    assert c[..|ReplyHead|] == ReplyHead;
    assert c[|c| - |ReplyFoot|..] == ReplyFoot;
    assert c[|ReplyHead|..|c| - |ReplyFoot|] == body;
  }

  // ----- The content as written -----

  /** Answers the hand-written content carries faithfully. */
  predicate NeedsOnlyNewlineEscapes(answer: string) {
    forall i :: 0 <= i < |answer| ==>
      answer[i] != '"' && answer[i] != '\\' && (IsControl(answer[i]) ==> answer[i] == '\n')
  }

  lemma {:induction false} DecodeEscapedNewlines(s: string)
    requires NeedsOnlyNewlineEscapes(s)
    ensures DecodeBody(EscapeNewlines(s)) == Some(s)
    decreases |s|
  {
    if s != [] {
      DecodeEscapedNewlines(s[1..]);
      var rest := EscapeNewlines(s[1..]);
      if s[0] == '\n' {
        var e := "\\n" + rest;
        assert e == EscapeNewlines(s);
        assert e[0] == '\\' && e[1] == 'n' && e[2..] == rest;
        assert DecodeBody(e) == Prepend('\n', DecodeBody(rest));
        assert [s[0]] + s[1..] == s;
      } else {
        var e := [s[0]] + rest;
        assert e == EscapeNewlines(s);
        assert s[0] != '"' && s[0] != '\\' && !IsControl(s[0]);
        assert e[1..] == rest;
        assert DecodeBody(e) == Prepend(s[0], DecodeBody(rest));
        assert [s[0]] + s[1..] == s;
      }
    }
  }

  /**
   * The reply content never holds a raw newline, and it reads back as the
   * answer whenever the answer holds no double quote, no backslash and no
   * control character other than newline.
   */
  lemma ReplyContentReadsBack(answer: string)
    requires NeedsOnlyNewlineEscapes(answer)
    ensures '\n' !in ReplyContent(answer)
    ensures ReadText(ReplyContent(answer)) == Some(answer)
  {
    ReadTextOfBody(EscapeNewlines(answer));
    DecodeEscapedNewlines(answer);
  }

  /**
   * The discrepancy: an answer made of one double quote gives a content
   * that is not a JSON object at all, and an answer holding a backslash
   * followed by `n` reads back as a newline.
   */
  lemma ReplyContentMisreads()
    ensures ReadText(ReplyContent("\"")) == None
    ensures ReadText(ReplyContent("\\n")) == Some("\n")
  {
    assert EscapeNewlines("\"") == "\"";
    assert ReplyContent("\"") == ReplyHead + "\"" + ReplyFoot;
    ReadTextOfBody("\"");
    assert EscapeNewlines("\\n") == "\\n" by {
      assert EscapeNewlines("n") == "n";
    }
    assert ReplyContent("\\n") == ReplyHead + "\\n" + ReplyFoot;
    ReadTextOfBody("\\n");
    var e := "\\n";
    assert e[0] == '\\' && e[1] == 'n' && e[2..] == "";
    assert DecodeBody(e) == Prepend('\n', DecodeBody(""));
    assert ['\n'] + "" == "\n";
  }

  // ----- The corrected content -----

  function HexDigit(d: nat): char
    requires d < 16
  {
    if d < 10 then ('0' as int + d) as char else ('a' as int + d - 10) as char
  }

  /** The JSON escape of one character. */
  function EscapeChar(c: char): string {
    if c == '"' then "\\\""
    else if c == '\\' then "\\\\"
    else if c == '\n' then "\\n"
    else if IsControl(c) then "\\u00" + [HexDigit(c as int / 16), HexDigit(c as int % 16)]
    else [c]
  }

  /** A valid JSON string body for `s`: quote, backslash and control characters escaped. */
  function JsonEscape(s: string): (r: string)
    ensures '\n' !in r
    decreases |s|
  {
    if s == [] then "" else EscapeChar(s[0]) + JsonEscape(s[1..])
  }

  /** The reply content with the answer properly encoded as a JSON string. */
  function JsonReplyContent(answer: string): string {
    ReplyHead + JsonEscape(answer) + ReplyFoot
  }

  /** A control character other than newline is written as `\u00XY` and read back. */
  lemma DecodeUnicodeEscape(c: char, rest: string)
    requires IsControl(c) && c != '\n'
    ensures DecodeBody(EscapeChar(c) + rest) == Prepend(c, DecodeBody(rest))
  {
    var hi, lo := c as int / 16, c as int % 16;
    var s := EscapeChar(c) + rest;
    assert EscapeChar(c) == "\\u00" + [HexDigit(hi), HexDigit(lo)];
    assert s[0] == '\\' && s[1] == 'u' && |s| >= 6;
    assert s[2..6] == ['0', '0', HexDigit(hi), HexDigit(lo)];
    assert HexValue(HexDigit(hi)) == Some(hi);
    assert HexValue(HexDigit(lo)) == Some(lo);
    assert Hex4(s[2..6]) == Some(c as int);
    assert s[6..] == rest;
  }

  lemma DecodeEscapeChar(c: char, rest: string)
    ensures DecodeBody(EscapeChar(c) + rest) == Prepend(c, DecodeBody(rest))
  {
    var s := EscapeChar(c) + rest;
    if c == '"' || c == '\\' || c == '\n' {
      assert s[2..] == rest;
    } else if IsControl(c) {
      DecodeUnicodeEscape(c, rest);
    } else {
      assert s[1..] == rest;
    }
  }

  lemma {:induction false} DecodeJsonEscape(s: string)
    ensures DecodeBody(JsonEscape(s)) == Some(s)
    decreases |s|
  {
    if s != [] {
      DecodeEscapeChar(s[0], JsonEscape(s[1..]));
      DecodeJsonEscape(s[1..]);
      assert [s[0]] + s[1..] == s;
    }
  }

  /** The corrected content holds no raw newline and reads back as the answer, for every answer. */
  lemma JsonReplyRoundTrip(answer: string)
    ensures '\n' !in JsonReplyContent(answer)
    ensures ReadText(JsonReplyContent(answer)) == Some(answer)
  {
    ReadTextOfBody(JsonEscape(answer));
    DecodeJsonEscape(answer);
  }
}
