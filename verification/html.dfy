/**
 `escapeHtml` from app.js: three global replacements, `&` first, then `<`,
 then `>`, so that the ampersands introduced by the later two are not escaped
 again.
 */
module Html {
  import opened Text

  /** `escapeHtml`: the three chained `replace` calls, in source order. */
  function EscapeHtml(s: string): (r: string)
    ensures '<' !in r && '>' !in r
  {
    ReplaceAll(ReplaceAll(ReplaceAll(s, '&', "&amp;"), '<', "&lt;"), '>', "&gt;")
  }

  /** What a single character becomes. */
  function Entity(ch: char): string {
    if ch == '&' then "&amp;"
    else if ch == '<' then "&lt;"
    else if ch == '>' then "&gt;"
    else [ch]
  }

  /** Escaping as one pass that maps every character on its own. */
  function EscapePerChar(s: string): string {
    if s == [] then [] else Entity(s[0]) + EscapePerChar(s[1..])
  }

  /** On one character the three replacements agree with `Entity`. */
  lemma EscapeHtmlOneChar(ch: char)
    ensures EscapeHtml([ch]) == Entity(ch)
  {
    ReplaceAllSingle(ch, '&', "&amp;");
    var r1 := ReplaceAll([ch], '&', "&amp;");
    if ch == '&' {
      ReplaceAllAbsent(r1, '<', "&lt;");
      ReplaceAllAbsent(r1, '>', "&gt;");
    } else {
      ReplaceAllSingle(ch, '<', "&lt;");
      var r2 := ReplaceAll(r1, '<', "&lt;");
      if ch == '<' {
        ReplaceAllAbsent(r2, '>', "&gt;");
      } else {
        ReplaceAllSingle(ch, '>', "&gt;");
      }
    }
  }

  /** The ordered replacements are one per-character map: every character of
      the input is escaped exactly once and nothing is escaped twice. */
  lemma {:induction false} EscapeHtmlIsPerChar(s: string)
    ensures EscapeHtml(s) == EscapePerChar(s)
  {
    if s != [] {
      var x, t := [s[0]], s[1..];
      assert s == x + t;
      var r1x, r1t := ReplaceAll(x, '&', "&amp;"), ReplaceAll(t, '&', "&amp;");
      ReplaceAllConcat(x, t, '&', "&amp;");
      var r2x, r2t := ReplaceAll(r1x, '<', "&lt;"), ReplaceAll(r1t, '<', "&lt;");
      ReplaceAllConcat(r1x, r1t, '<', "&lt;");
      ReplaceAllConcat(r2x, r2t, '>', "&gt;");
      assert EscapeHtml(s) == EscapeHtml(x) + EscapeHtml(t);
      EscapeHtmlOneChar(s[0]);
      EscapeHtmlIsPerChar(t);
    }
  }

  /** The three entities `escapeHtml` produces. */
  predicate EntityAt(e: string, i: nat)
    requires i <= |e|
  {
    StartsWith(e[i..], "&amp;") || StartsWith(e[i..], "&lt;") || StartsWith(e[i..], "&gt;")
  }

  /** Every `&` of `e` starts one of the three entities. */
  predicate NoBareAmpersand(e: string) {
    forall i :: 0 <= i < |e| && e[i] == '&' ==> EntityAt(e, i)
  }

  /** Decodes the three entities, left to right. */
  function UnescapeHtml(e: string): string
    decreases |e|
  {
    if StartsWith(e, "&amp;") then "&" + UnescapeHtml(e[5..])
    else if StartsWith(e, "&lt;") then "<" + UnescapeHtml(e[4..])
    else if StartsWith(e, "&gt;") then ">" + UnescapeHtml(e[4..])
    else if e == [] then []
    else [e[0]] + UnescapeHtml(e[1..])
  }

  lemma UnescapeEntity(ch: char, rest: string)
    ensures UnescapeHtml(Entity(ch) + rest) == [ch] + UnescapeHtml(rest)
  {
    if ch == '&' {
      UnescapeAmp(rest);
    } else if ch == '<' {
      UnescapeLt(rest);
    } else if ch == '>' {
      UnescapeGt(rest);
    } else {
      assert Entity(ch) == [ch];
      UnescapePlain(ch, rest);
    }
  }

  lemma UnescapePlain(ch: char, rest: string)
    requires ch != '&'
    ensures UnescapeHtml([ch] + rest) == [ch] + UnescapeHtml(rest)
  {
    var e := [ch] + rest;
    assert e[0] == ch;
    assert !StartsWith(e, "&amp;") && !StartsWith(e, "&lt;") && !StartsWith(e, "&gt;");
    assert e[1..] == rest;
  }

  lemma UnescapeAmp(rest: string)
    ensures UnescapeHtml("&amp;" + rest) == "&" + UnescapeHtml(rest)
  {
    var e := "&amp;" + rest;
    assert e[..5] == "&amp;";
    assert e[5..] == rest;
  }

  lemma UnescapeLt(rest: string)
    ensures UnescapeHtml("&lt;" + rest) == "<" + UnescapeHtml(rest)
  {
    var e := "&lt;" + rest;
    assert e[1] == 'l';
    assert !StartsWith(e, "&amp;");
    assert e[..4] == "&lt;";
    assert e[4..] == rest;
  }

  lemma UnescapeGt(rest: string)
    ensures UnescapeHtml("&gt;" + rest) == ">" + UnescapeHtml(rest)
  {
    var e := "&gt;" + rest;
    assert e[1] == 'g';
    assert !StartsWith(e, "&amp;");
    assert !StartsWith(e, "&lt;");
    assert e[..4] == "&gt;";
    assert e[4..] == rest;
  }

  /** Decoding the three entities recovers the input exactly. */
  lemma {:induction false} UnescapeEscapeHtml(s: string)
    ensures UnescapeHtml(EscapeHtml(s)) == s
  {
    EscapeHtmlIsPerChar(s);
    UnescapePerChar(s);
  }

  lemma {:induction false} UnescapePerChar(s: string)
    ensures UnescapeHtml(EscapePerChar(s)) == s
  {
    if s != [] {
      UnescapeEntity(s[0], EscapePerChar(s[1..]));
      UnescapePerChar(s[1..]);
      assert [s[0]] + s[1..] == s;
    }
  }

  /** In escaped text every `&` is the start of one of the three entities, so
      no raw ampersand survives. */
  lemma {:induction false} EscapedAmpersands(s: string)
    ensures NoBareAmpersand(EscapeHtml(s))
  {
    EscapeHtmlIsPerChar(s);
    PerCharAmpersands(s);
  }

  lemma {:induction false} PerCharAmpersands(s: string)
    ensures NoBareAmpersand(EscapePerChar(s))
  {
    if s != [] {
      var head, tail := Entity(s[0]), EscapePerChar(s[1..]);
      var r := head + tail;
      PerCharAmpersands(s[1..]);
      forall i | 0 <= i < |r| && r[i] == '&'
        ensures EntityAt(r, i)
      {
        if i < |head| {
          HeadAmpersand(s[0], tail, i);
        } else {
          var j := i - |head|;
          assert tail[j] == '&';
          assert NoBareAmpersand(tail);
          assert EntityAt(tail, j);
          assert r[i..] == tail[j..];
        }
      }
    }
  }

  /** Inside one escaped character, an `&` can only be the first character of
      an entity. */
  lemma HeadAmpersand(ch: char, tail: string, i: nat)
    requires i < |Entity(ch)| && (Entity(ch) + tail)[i] == '&'
    ensures EntityAt(Entity(ch) + tail, i)
  {
    var head := Entity(ch);
    var r := head + tail;
    assert head[i] == '&';
    assert i == 0;
    assert r[0..] == r;
    assert r[..|head|] == head;
  }

  /** Escaping `&` last would double-escape: `<` would come out as `&amp;lt;`. */
  lemma OrderMatters()
    ensures EscapeHtml("<") == "&lt;"
    ensures ReplaceAll(ReplaceAll(ReplaceAll("<", '<', "&lt;"), '>', "&gt;"), '&', "&amp;") == "&amp;lt;"
  {
    EscapeHtmlOneChar('<');
    assert ReplaceAll("<", '<', "&lt;") == "&lt;";
    ReplaceAllAbsent("&lt;", '>', "&gt;");
    assert ReplaceAll("&lt;", '&', "&amp;") == "&amp;" + ReplaceAll("lt;", '&', "&amp;");
    ReplaceAllAbsent("lt;", '&', "&amp;");
  }
}
