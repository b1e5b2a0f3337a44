/**
 * The escaping helper `h()`: `htmlspecialchars` with ENT_QUOTES, which
 * replaces the five markup-significant characters by entities.
 */
module Html {

  /** The characters that `h()` replaces. */
  const Special: string := "&<>\"'"

  /** The entity one character becomes. */
  function EscapeChar(c: char): string
  {
    if c == '&' then "&amp;"
    else if c == '<' then "&lt;"
    else if c == '>' then "&gt;"
    else if c == '"' then "&quot;"
    else if c == '\'' then "&#039;"
    else [c]
  }

  /** `h($s)`. */
  function Escape(s: string): (r: string)
    ensures forall k :: 0 <= k < |r| ==> r[k] !in "<>\"'"
    ensures |r| >= |s|
  {
    if s == [] then [] else EscapeChar(s[0]) + Escape(s[1..])
  }

  /** Decodes exactly the five entities `h()` produces; the inverse of `Escape`. */
  function Unescape(s: string): string
    decreases |s|
  {
    if s == [] then []
    else if |s| >= 5 && s[..5] == "&amp;" then "&" + Unescape(s[5..])
    else if |s| >= 4 && s[..4] == "&lt;" then "<" + Unescape(s[4..])
    else if |s| >= 4 && s[..4] == "&gt;" then ">" + Unescape(s[4..])
    else if |s| >= 6 && s[..6] == "&quot;" then "\"" + Unescape(s[6..])
    else if |s| >= 6 && s[..6] == "&#039;" then "'" + Unescape(s[6..])
    else [s[0]] + Unescape(s[1..])
  }

  /** Decoding one escaped character, followed by anything, yields that character first. */
  lemma UnescapeStep(c: char, rest: string)
    ensures Unescape(EscapeChar(c) + rest) == [c] + Unescape(rest)
  {
    if c == '&' {
      UnescapeAmp(rest);
    } else if c == '<' || c == '>' {
      UnescapeAngle(c, rest);
    } else if c == '"' || c == '\'' {
      UnescapeQuote(c, rest);
    } else {
      UnescapePlain(c, rest);
    }
  }

  lemma UnescapePlain(c: char, rest: string)
    requires c !in Special
    ensures Unescape([c] + rest) == [c] + Unescape(rest)
  {
    var t := [c] + rest;
    assert t[1..] == rest;
    assert |t| >= 4 ==> t[..4][0] == c;
    assert |t| >= 5 ==> t[..5][0] == c;
    assert |t| >= 6 ==> t[..6][0] == c;
  }

  lemma UnescapeAmp(rest: string)
    ensures Unescape("&amp;" + rest) == "&" + Unescape(rest)
  {
    var t := "&amp;" + rest;
    assert t[..5] == "&amp;" && t[5..] == rest;
  }

  lemma UnescapeAngle(c: char, rest: string)
    requires c == '<' || c == '>'
    ensures Unescape(EscapeChar(c) + rest) == [c] + Unescape(rest)
  {
    var t := EscapeChar(c) + rest;
    assert t[1] == (if c == '<' then 'l' else 'g');
    assert |t| >= 5 ==> t[..5][1] == t[1];
    assert t[..4] == EscapeChar(c) && t[4..] == rest;
  }

  lemma UnescapeQuote(c: char, rest: string)
    requires c == '"' || c == '\''
    ensures Unescape(EscapeChar(c) + rest) == [c] + Unescape(rest)
  {
    var t := EscapeChar(c) + rest;
    assert t[1] == (if c == '"' then 'q' else '#');
    assert |t| >= 5 ==> t[..5][1] == t[1];
    assert |t| >= 4 ==> t[..4][1] == t[1];
    assert t[..6] == EscapeChar(c) && t[6..] == rest;
  }

  /** Escaping loses nothing: the escaped text decodes to the original. */
  lemma {:induction false} EscapeRoundTrip(s: string)
    ensures Unescape(Escape(s)) == s
  {
    if s != [] {
      UnescapeStep(s[0], Escape(s[1..]));
      EscapeRoundTrip(s[1..]);
      assert [s[0]] + s[1..] == s;
    }
  }

  /** Text with no special character is emitted unchanged. */
  lemma {:induction false} EscapePlainText(s: string)
    requires forall k :: 0 <= k < |s| ==> s[k] !in Special
    ensures Escape(s) == s
  {
    if s != [] {
      EscapePlainText(s[1..]);
      assert [s[0]] + s[1..] == s;
    }
  }

  /** `t` begins with the entity `h()` writes for one of the five special characters. */
  predicate StartsEntity(t: string)
  {
    exists c :: c in Special && |EscapeChar(c)| <= |t| && t[..|EscapeChar(c)|] == EscapeChar(c)
  }

  /** Within the text one character escapes to, an `&` can only be its first character, opening an entity. */
  lemma EntityHead(c: char, rest: string, k: nat)
    requires k < |EscapeChar(c)| && (EscapeChar(c) + rest)[k] == '&'
    ensures k == 0 && StartsEntity(EscapeChar(c) + rest)
  {
    var t := EscapeChar(c) + rest;
    assert t[..|EscapeChar(c)|] == EscapeChar(c);
  }

  /** No `&` is left raw: every `&` of `h($s)` opens one of the five entities. */
  lemma {:induction false} EscapeAmpersands(s: string)
    ensures forall k :: 0 <= k < |Escape(s)| && Escape(s)[k] == '&' ==> StartsEntity(Escape(s)[k..])
  {
    if s != [] {
      EscapeAmpersands(s[1..]);
      var e := EscapeChar(s[0]);
      var rest := Escape(s[1..]);
      var r := Escape(s);
      assert r == e + rest;
      forall k | 0 <= k < |r| && r[k] == '&'
        ensures StartsEntity(r[k..])
      {
        if k < |e| {
          EntityHead(s[0], rest, k);
          assert r[k..] == r;
        } else {
          var j := k - |e|;
          assert r[k..] == rest[j..];
          assert rest[j] == '&';
        }
      }
    }
  }
}
