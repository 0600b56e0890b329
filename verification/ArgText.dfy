/**
 Text in fixed-size, zero-filled fields: how the kernel cuts the second argument out of a process's argument area,
 and how the server sanitises a field, in place, before using it as a file name.
 */
module ArgText {
  import opened Basics
  import opened Bytes
  import opened Framing

  const SLASH: byte := 0x2F
  const AT: byte := 0x40
  const UNDERSCORE: byte := 0x5F

  // ------------------------------------------------------------------------------------------
  // C strings
  // ------------------------------------------------------------------------------------------

  /** The text a buffer holds: what comes before its first NUL. */
  function TextOf(s: seq<byte>): (t: seq<byte>)
    ensures |t| <= |s| && t == s[..|t|] && 0 !in t
    ensures |t| < |s| ==> s[|t|] == 0
  {
    if s == [] || s[0] == 0 then [] else [s[0]] + TextOf(s[1..])
  }

  /** A field of n bytes that holds a text. */
  function Field(text: seq<byte>, n: nat): (f: seq<byte>)
    requires |text| <= n
    ensures |f| == n && text <= f && forall i :: |text| <= i < n ==> f[i] == 0
  {
    text + Zeros(n - |text|)
  }

  function Cut(s: seq<byte>, n: nat): (t: seq<byte>)
    ensures |t| <= n && t <= s && (|t| == n || t == s)
  {
    if |s| <= n then s else s[..n]
  }

  /** The text is the only NUL-free prefix that the end of the buffer or a NUL follows. */
  lemma TextIs(s: seq<byte>, t: seq<byte>)
    requires t <= s && 0 !in t && (|t| < |s| ==> s[|t|] == 0)
    ensures TextOf(s) == t
  {
    var u := TextOf(s);
    NoNulBefore(s, t);
    NoNulBefore(s, u);
  }

  lemma NoNulBefore(s: seq<byte>, t: seq<byte>)
    requires t <= s && 0 !in t
    ensures forall i :: 0 <= i < |t| ==> s[i] != 0
  {
    forall i | 0 <= i < |t|
      ensures s[i] != 0
    {
      assert s[i] == t[i] && t[i] in t;
    }
  }

  lemma TextOfField(t: seq<byte>, n: nat)
    requires 0 !in t && |t| <= n
    ensures TextOf(Field(t, n)) == t
  {
    TextIs(Field(t, n), t);
  }

  // ------------------------------------------------------------------------------------------
  // The second argument
  // ------------------------------------------------------------------------------------------

  /** The pieces between NULs; one more than there are NULs. */
  function Tokens(s: seq<byte>): (ts: seq<seq<byte>>)
    ensures |ts| > 0
  {
    var t := TextOf(s);
    if |t| == |s| then [t] else [t] + Tokens(s[|t| + 1..])
  }

  function JoinTokens(ts: seq<seq<byte>>): seq<byte>
    requires ts != []
  {
    if |ts| == 1 then ts[0] else ts[0] + [0] + JoinTokens(ts[1..])
  }

  /** `Tokens` is the one way of writing an area as NUL-free pieces with a NUL between any two of them. */
  lemma {:induction false} TokensExact(s: seq<byte>, ts: seq<seq<byte>>)
    requires ts != []
    ensures ts == Tokens(s) <==> JoinTokens(ts) == s && forall i :: 0 <= i < |ts| ==> 0 !in ts[i]
    decreases |s|, |ts|
  {
    var t := TextOf(s);
    if |t| < |s| {
      var rest := s[|t| + 1..];
      assert s == t + [0] + rest;
      TokensExact(rest, Tokens(rest));
      assert Tokens(s)[1..] == Tokens(rest);
      if |ts| > 1 {
        TokensExact(rest, ts[1..]);
      }
    }
    if JoinTokens(ts) == s && forall i :: 0 <= i < |ts| ==> 0 !in ts[i] {
      FirstToken(s, ts);
    }
  }

  lemma FirstToken(s: seq<byte>, ts: seq<seq<byte>>)
    requires ts != [] && 0 !in ts[0] && JoinTokens(ts) == s
    ensures ts[0] == TextOf(s)
    ensures |ts| == 1 <==> |ts[0]| == |s|
    ensures |ts| > 1 ==> s[|ts[0]| + 1..] == JoinTokens(ts[1..])
  {
    TextIs(s, ts[0]);
  }

  /** What becomes of the argument area: the second token of what is looked at, cut to what the field can hold. */
  function SecondArgText(area: seq<byte>, copied: bool): (t: seq<byte>)
    ensures |t| < MAX_ARG_LEN
  {
    var tokens := Tokens(Cut(area, 1023));
    if copied && |tokens| > 1 then Cut(tokens[1], MAX_ARG_LEN - 1) else []
  }

  lemma TokensFrom(s: seq<byte>, i: nat)
    requires i == |TextOf(s)|
    ensures i < |s| ==> |Tokens(s)| > 1 && Tokens(s)[1] == TextOf(s[i + 1..])
    ensures i == |s| ==> |Tokens(s)| == 1
  {
  }

  /** What the field gets, in terms of the index behind the first NUL. */
  lemma SecondFrom(area: seq<byte>, i: nat)
    requires i == |TextOf(Cut(area, 1023))| + 1
    ensures var s := Cut(area, 1023);
            && SecondArgText(area, false) == []
            && (i > |s| ==> SecondArgText(area, true) == [])
            && (i <= |s| ==> SecondArgText(area, true) == Cut(TextOf(s[i..]), MAX_ARG_LEN - 1))
            && (i == |s| || (i < |s| && s[i] == 0) ==> SecondArgText(area, true) == [])
  {
    hide Tokens;
    TokensFrom(Cut(area, 1023), i - 1);
  }

  lemma EmptyArea(copied: bool)
    ensures SecondArgText([], copied) == []
  {
  }

  lemma EmptyField(n: nat)
    ensures Field([], n) == Zeros(n)
  {
  }

  /** The first loop. */
  method SkipToken(temp: array<byte>, argLen: nat) returns (i: nat)
    requires argLen <= temp.Length
    ensures i == |TextOf(temp[..argLen])|
  {
    ghost var s := temp[..argLen];
    i := 0;
    while i < argLen && temp[i] != 0
      invariant i <= argLen && 0 !in s[..i]
    {
      assert s[..i + 1] == s[..i] + [s[i]];
      i := i + 1;
    }
    TextIs(s, s[..i]);
  }

  /**
   The extraction loops. `area` is the memory between `arg_start` and `arg_end`, and `copied` says whether
   `copy_from_user_nofault` could read it.
   */
  method SecondArgument(area: seq<byte>, copied: bool) returns (args: ArgsField)
    ensures args == Field(SecondArgText(area, copied), MAX_ARG_LEN)
  {
    hide Tokens, TextOf, Field, SecondArgText, Cut;
    EmptyField(MAX_ARG_LEN);
    EmptyArea(copied);
    var field := new byte[MAX_ARG_LEN](_ => 0);
    assert field[..] == Zeros(MAX_ARG_LEN);
    if |area| > 0 {
      var temp := new byte[1024](_ => 0);
      var argLen := |area|;
      if argLen >= temp.Length {
        argLen := temp.Length - 1;
      }
      ghost var s := area[..argLen];
      CutIs(area, 1023, argLen);
      if copied {
        forall k | 0 <= k < argLen {
          temp[k] := area[k];
        }
        assert temp[..argLen] == s;
        var i := SkipToken(temp, argLen);
        i := i + 1;
        SecondFrom(area, i);
        if i < argLen && temp[i] != 0 {
          assert temp[i..argLen] == s[i..];
          CopyToken(temp, i, argLen, field);
        } else {
          assert i < argLen ==> s[i] == 0;
          field[0] := 0;
          assert field[..] == Zeros(MAX_ARG_LEN);
        }
      } else {
        SecondFrom(area, |TextOf(Cut(area, 1023))| + 1);
        field[0] := 0;
        assert field[..] == Zeros(MAX_ARG_LEN);
      }
    }
    args := field[..];
  }

  lemma CutIs(s: seq<byte>, n: nat, m: nat)
    requires m == if |s| <= n then |s| else n
    ensures Cut(s, n) == s[..m]
  {
  }

  /** The second loop: the token at i, as far as it fits. */
  method CopyToken(temp: array<byte>, i: nat, argLen: nat, field: array<byte>)
    requires temp != field && i < argLen < temp.Length && temp[i] != 0
    requires field[..] == Zeros(MAX_ARG_LEN)
    modifies field
    ensures field[..] == Field(Cut(TextOf(temp[i..argLen]), MAX_ARG_LEN - 1), MAX_ARG_LEN)
  {
    ghost var token := temp[i..argLen];
    ghost var text := TextOf(token);
    NoNulBefore(token, text);
    assert |text| < |token| ==> token[|text|] == 0;
    var j := 0;
    while i + j < argLen && temp[i + j] != 0
      invariant j < MAX_ARG_LEN - 1 && i + j <= argLen
      invariant j <= |text|
      invariant forall k :: 0 <= k < |token| ==> temp[i + k] == token[k]
      invariant forall k :: 0 <= k < j ==> field[k] == text[k]
      invariant forall k :: j <= k < MAX_ARG_LEN ==> field[k] == 0
    {
      assert temp[i + j] == token[j];
      field[j] := temp[i + j];
      j := j + 1;
      if j == MAX_ARG_LEN - 1 {
        break;
      }
    }
    assert j == |text| || j == MAX_ARG_LEN - 1;
    assert |Cut(text, MAX_ARG_LEN - 1)| == j;
    field[j] := 0;
    assert field[..] == Field(Cut(text, MAX_ARG_LEN - 1), MAX_ARG_LEN);
  }

  lemma FirstTooLong(first: seq<byte>, tail: seq<byte>)
    requires 0 !in first && |first| >= 1023
    ensures SecondArgText(first + tail, true) == []
  {
    var s := Cut(first + tail, 1023);
    assert s == first[..1023];
    TextIs(s, s);
    TokensFrom(s, 1023);
  }

  lemma SecondShown(first: seq<byte>, second: seq<byte>, rest: seq<byte>)
    requires 0 !in first && 0 !in second && |first| < 1023
    ensures SecondArgText(first + [0] + second + [0] + rest, true) == Cut(Cut(second, 1022 - |first|), MAX_ARG_LEN - 1)
  {
    hide SecondArgText, TextOf, Cut, Tokens;
    var n := |first|;
    var after := second + [0] + rest;
    assert first + [0] + second + [0] + rest == first + [0] + after;
    CutBehind(first, after);
    var s := Cut(first + [0] + after, 1023);
    TextIs(s, first);
    SecondFrom(first + [0] + after, n + 1);
    assert s[n + 1..] == Cut(after, 1022 - n);
    TextOfCut(second, rest, 1022 - n);
  }

  lemma CutBehind(first: seq<byte>, after: seq<byte>)
    requires |first| < 1023
    ensures var s := Cut(first + [0] + after, 1023);
            first <= s && |first| < |s| && s[|first|] == 0 && s[|first| + 1..] == Cut(after, 1022 - |first|)
  {
  }

  lemma TextOfCut(text: seq<byte>, rest: seq<byte>, n: nat)
    requires 0 !in text
    ensures TextOf(Cut(text + [0] + rest, n)) == Cut(text, n)
  {
    TextIs(Cut(text + [0] + rest, n), Cut(text, n));
  }

  /**
   The extraction for every area: `first` is what comes before the first NUL of what is looked at, `second` what comes
   before the next one, or the end.
   */
  lemma SecondArgTextExact(area: seq<byte>, first: seq<byte>, second: seq<byte>, rest: seq<byte>)
    requires 0 !in first && 0 !in second && (rest != [] ==> rest[0] == 0)
    ensures SecondArgText(area, false) == []
    ensures Cut(area, 1023) == first ==> SecondArgText(area, true) == []
    ensures Cut(area, 1023) == first + [0] + second + rest ==> SecondArgText(area, true) == Cut(second, 127)
  {
    hide Tokens, TextOf, SecondArgText, Cut;
    var s := Cut(area, 1023);
    SecondFrom(area, |TextOf(s)| + 1);
    if s == first {
      TextIs(s, first);
    }
    if s == first + [0] + second + rest {
      TextIs(s, first);
      assert s[|first| + 1..] == second + rest;
      TextIs(second + rest, second);
    }
  }

  /**
   On an argument area as `execve` lays it out, the field gets the second argument - all of it exactly when it has
   at most 127 bytes and ends within the first 1023 bytes of the area.
   */
  lemma SecondArgumentWhole(first: seq<byte>, second: seq<byte>, rest: seq<byte>)
    requires 0 !in first && 0 !in second
    ensures var t := SecondArgText(first + [0] + second + [0] + rest, true);
            && t <= second
            && (t == second <==> |second| < MAX_ARG_LEN && (second == [] || |first| + 1 + |second| <= 1023))
  {
    hide SecondArgText;
    if |first| >= 1023 {
      assert first + [0] + second + [0] + rest == first + ([0] + second + [0] + rest);
      FirstTooLong(first, [0] + second + [0] + rest);
    } else {
      SecondShown(first, second, rest);
    }
  }

  // ------------------------------------------------------------------------------------------
  // Sanitising
  // ------------------------------------------------------------------------------------------

  function Without(s: seq<byte>, c: byte): (t: seq<byte>)
    ensures |t| <= |s| && c !in t
    ensures forall b :: b in t ==> b in s
  {
    if s == [] then []
    else Without(s[..|s| - 1], c) + if s[|s| - 1] == c then [] else [s[|s| - 1]]
  }

  function Replaced(s: seq<byte>, c: byte, d: byte): (t: seq<byte>)
    ensures |t| == |s|
    ensures forall i :: 0 <= i < |s| ==> t[i] == if s[i] == c then d else s[i]
  {
    seq(|s|, i requires 0 <= i < |s| => if s[i] == c then d else s[i])
  }

  /** A text made safe for a path: '@' dropped, and '/' turned into '_'. */
  function Sanitized(text: seq<byte>): (t: seq<byte>)
    ensures |t| <= |text|
    ensures SLASH !in t && AT !in t
    ensures 0 !in text ==> 0 !in t
  {
    Replaced(Without(text, AT), SLASH, UNDERSCORE)
  }

  lemma SanitizedSnoc(s: seq<byte>, b: byte)
    ensures Sanitized(s + [b])
         == Sanitized(s) + if b == AT then [] else if b == SLASH then [UNDERSCORE] else [b]
  {
    assert (s + [b])[..|s|] == s;
    assert Without(s + [b], AT) == Without(s, AT) + if b == AT then [] else [b];
  }

  lemma SanitizedNext(text: seq<byte>, i: nat)
    requires i < |text|
    ensures Sanitized(text[..i + 1])
         == Sanitized(text[..i]) + if text[i] == AT then [] else if text[i] == SLASH then [UNDERSCORE] else [text[i]]
  {
    hide Sanitized;
    assert text[..i + 1] == text[..i] + [text[i]];
    SanitizedSnoc(text[..i], text[i]);
  }

  lemma {:induction false} WithoutAbsent(s: seq<byte>, c: byte)
    ensures Without(s, c) == s <==> c !in s
  {
    if s != [] {
      assert s == s[..|s| - 1] + [s[|s| - 1]];
      WithoutAbsent(s[..|s| - 1], c);
      if c !in s {
        assert s[|s| - 1] in s;
      }
    }
  }

  /** Sanitising goes character by character: '@' goes, '/' becomes '_', every other one stays. */
  lemma {:induction false} SanitizedParts(a: seq<byte>, c: byte, b: seq<byte>)
    ensures Sanitized([]) == []
    ensures Sanitized(a + [c] + b)
         == Sanitized(a) + (if c == 0x40 then [] else if c == 0x2F then [0x5F] else [c]) + Sanitized(b)
  {
    EmptySanitized(a);
    assert a[..0] == [];
    SanitizedSnoc(a, c);
    var mid := if c == 0x40 then [] else if c == 0x2F then [0x5F] else [c];
    hide Sanitized;
    if b == [] {
      assert a + [c] + b == a + [c];
      assert Sanitized(a) + mid + [] == Sanitized(a) + mid;
    } else {
      var b', d := b[..|b| - 1], b[|b| - 1];
      assert b == b' + [d];
      SanitizedParts(a, c, b');
      Reassociate(a + [c], b', [d]);
      SanitizedSnoc(a + [c] + b', d);
      SanitizedSnoc(b', d);
      Reassociate(Sanitized(a) + mid, Sanitized(b'),
                  if d == AT then [] else if d == SLASH then [UNDERSCORE] else [d]);
    }
  }

  /** Sanitising leaves a text alone exactly when it has nothing to sanitise; so doing it again changes nothing. */
  lemma SanitizedIdempotent(text: seq<byte>)
    ensures Sanitized(text) == text <==> SLASH !in text && AT !in text
    ensures Sanitized(Sanitized(text)) == Sanitized(text)
  {
    SanitizedFixed(text);
    SanitizedFixed(Sanitized(text));
  }

  lemma SanitizedFixed(text: seq<byte>)
    ensures Sanitized(text) == text <==> SLASH !in text && AT !in text
  {
    WithoutAbsent(text, AT);
    if SLASH !in text && AT !in text {
      assert Sanitized(text) == text;
    }
  }

  /**
   `sanitize_filename`: the text is rewritten in place and terminated; what lies behind the terminator stays. The
   buffer must have room for the terminator.
   */
  method SanitizeFilename(str: array<byte>, maxLen: nat)
    requires maxLen <= str.Length
    requires |Sanitized(TextOf(str[..maxLen]))| < str.Length
    modifies str
    ensures var t := Sanitized(TextOf(old(str[..maxLen])));
            str[..] == t + [0] + old(str[..])[|t| + 1..]
  {
    hide Sanitized, TextOf;
    ghost var before := str[..];
    ghost var text, done := TextOf(str[..maxLen]), [];
    NoNulBefore(before[..maxLen], text);
    EmptySanitized(text);
    var j := 0;
    var i := 0;
    while i < maxLen && str[i] != 0
      invariant j <= i <= |text|
      invariant j == |done| && done == Sanitized(text[..i])
      invariant forall k :: 0 <= k < j ==> str[k] == done[k]
      invariant forall k :: j <= k < str.Length ==> str[k] == before[k]
    {
      assert str[i] == before[..maxLen][i] == text[i];
      SanitizedNext(text, i);
      if str[i] == SLASH {
        done := done + [UNDERSCORE];
        str[j] := UNDERSCORE;
        j := j + 1;
      } else if str[i] != AT {
        done := done + [str[i]];
        str[j] := str[i];
        j := j + 1;
      }
      i := i + 1;
    }
    assert i == |text| && text[..i] == text;
    str[j] := 0;
    Assembled(str[..], done, before);
  }

  lemma EmptySanitized(text: seq<byte>)
    ensures Sanitized(text[..0]) == []
  {
  }

  lemma Assembled(now: seq<byte>, done: seq<byte>, before: seq<byte>)
    requires |done| < |now| == |before| && now[|done|] == 0
    requires forall k :: 0 <= k < |done| ==> now[k] == done[k]
    requires forall k :: |done| < k < |now| ==> now[k] == before[k]
    ensures now == done + [0] + before[|done| + 1..]
  {
  }

  /** A field that a caller terminates in its last byte has room for the terminator. */
  lemma TerminatedFieldHasRoom(field: seq<byte>)
    requires field != [] && field[|field| - 1] == 0
    ensures |Sanitized(TextOf(field))| < |field|
  {
    NoNulBefore(field, TextOf(field));
  }

  /** The path component for a field: its sanitised text, or a fixed name when nothing is left. */
  function Component(field: seq<byte>, fallback: seq<byte>): (t: seq<byte>)
    requires field != []
  {
    var t := Sanitized(TextOf(field[..|field| - 1]));
    if t == [] then fallback else t
  }

  /** `strncpy` into a fresh buffer, whose last byte is then set to NUL. */
  method TerminatedCopy(field: seq<byte>) returns (safe: array<byte>)
    requires field != []
    ensures fresh(safe) && safe.Length == |field| && safe[safe.Length - 1] == 0
    ensures TextOf(safe[..]) == TextOf(field[..|field| - 1])
  {
    hide TextOf;
    var n := |field|;
    safe := new byte[n](_ => 0);
    ghost var taken := TextOf(field);
    var i := 0;
    while i < n && field[i] != 0
      invariant i <= n && 0 !in field[..i]
      invariant forall k :: 0 <= k < i ==> safe[k] == field[k]
      invariant forall k :: i <= k < n ==> safe[k] == 0
    {
      assert field[..i + 1] == field[..i] + [field[i]];
      safe[i] := field[i];
      i := i + 1;
    }
    safe[n - 1] := 0;
    ghost var shown := Cut(field[..i], n - 1);
    assert shown <= safe[..] && safe[|shown|] == 0;
    TextIs(safe[..], shown);
    TextIs(field[..n - 1], shown);
  }

  lemma TextInFront(s: seq<byte>, t: seq<byte>, tail: seq<byte>)
    requires s == t + [0] + tail && 0 !in t
    ensures TextOf(s) == t
  {
    TextIs(s, t);
  }

  /** The component for every field: its last byte does not count, and its text ends at the first NUL before that. */
  lemma ComponentExact(text: seq<byte>, rest: seq<byte>, fallback: seq<byte>)
    requires 0 !in text && rest != [] && (|rest| > 1 ==> rest[0] == 0)
    ensures Component(text + rest, fallback) == if Sanitized(text) == [] then fallback else Sanitized(text)
  {
    hide Sanitized;
    var field := text + rest;
    var shown := field[..|field| - 1];
    assert text <= shown && (|text| < |shown| ==> shown[|text|] == rest[0]);
    TextIs(shown, text);
  }

  /** The part of `dump_mapping` that prepares one component: copy, terminate, sanitise, fall back. */
  method SafeComponent(field: seq<byte>, fallback: seq<byte>) returns (text: seq<byte>)
    requires 0 < |fallback| < |field| && 0 !in fallback
    ensures text == Component(field, fallback)
  {
    hide Sanitized, TextOf;
    var safe := TerminatedCopy(field);
    assert safe[..safe.Length] == safe[..];
    TerminatedFieldHasRoom(safe[..]);
    SanitizedHasNoNul(TextOf(safe[..]));
    ghost var before := safe[..];
    SanitizeFilename(safe, safe.Length);
    ghost var t := Sanitized(TextOf(before));
    TextInFront(safe[..], t, before[|t| + 1..]);
    text := TextOf(safe[..]);
    if |text| == 0 {
      text := fallback;
    }
  }

  lemma SanitizedHasNoNul(text: seq<byte>)
    requires 0 !in text
    ensures 0 !in Sanitized(text)
  {
  }

  /** The text of a field without its last byte. */
  lemma ShorterField(field: seq<byte>)
    requires field != []
    ensures TextOf(field[..|field| - 1]) == Cut(TextOf(field), |field| - 1)
  {
    var t := Cut(TextOf(field), |field| - 1);
    TextIs(field[..|field| - 1], t);
  }

  /**
   From the process to the path: the directory for the arguments is the sanitised second argument, or the fallback
   when that is empty; it is never empty, and contains neither '/' nor '@' nor NUL.
   */
  lemma ArgumentDirectory(area: seq<byte>, copied: bool, fallback: seq<byte>)
    requires fallback != [] && SLASH !in fallback && AT !in fallback && 0 !in fallback
    ensures var t := SecondArgText(area, copied);
            var dir := Component(Field(t, MAX_ARG_LEN), fallback);
            && dir == (if Sanitized(t) == [] then fallback else Sanitized(t))
            && dir != [] && SLASH !in dir && AT !in dir && 0 !in dir
  {
    hide Sanitized;
    var t := SecondArgText(area, copied);
    SecondArgHasNoNul(area, copied);
    TextOfField(t, MAX_ARG_LEN);
    ShorterField(Field(t, MAX_ARG_LEN));
  }

  lemma SecondArgHasNoNul(area: seq<byte>, copied: bool)
    ensures 0 !in SecondArgText(area, copied)
  {
    var s := Cut(area, 1023);
    TokensFrom(s, |TextOf(s)|);
  }
}
