/** `replace(/<[^>]+>/g, "")`: the markup stripping used to decide whether a
    news description has any text in it. */
module Markup {
  import opened JsValues
  import opened Text

  /** `s[..k]` is a match of `<[^>]+>`: a '<', then one or more characters
      that are not '>', then '>'. */
  predicate MatchesTag(s: string, k: nat) {
    && 3 <= k <= |s|
    && s[0] == '<'
    && s[k - 1] == '>'
    && forall j :: 1 <= j < k - 1 ==> s[j] != '>'
  }

  /** The length of the match of `<[^>]+>` anchored at the start of `s`.
      There is at most one, because `[^>]+` cannot cross a '>'. */
  function TagLength(s: string): (r: Option<nat>)
    ensures forall k: nat :: MatchesTag(s, k) <==> r == Some(k)
  {
    if |s| >= 2 && s[0] == '<' && s[1] != '>' then
      match IndexOf(s, '>', 2)
      case Some(j) => Some(j + 1)
      case None => None
    else None
  }

  /** The global replacement: scanning left to right, every match is
      removed and scanning resumes after it; any other character is kept. */
  function StripMarkup(s: string): (r: string)
    ensures |r| <= |s|
    decreases |s|
  {
    if s == [] then []
    else
      match TagLength(s)
      case Some(k) => StripMarkup(s[k..])
      case None => [s[0]] + StripMarkup(s[1..])
  }

  /** The replacement only removes characters: everything left was in `s`. */
  lemma {:induction false} StripInside(s: string)
    ensures forall c :: c in StripMarkup(s) ==> c in s
    decreases |s|
  {
    if s != [] {
      match TagLength(s)
      case Some(k) =>
        StripInside(s[k..]);
        assert forall c :: c in s[k..] ==> c in s;
      case None =>
        StripInside(s[1..]);
        assert forall c :: c in s[1..] ==> c in s;
    }
  }

  /** No match of `<[^>]+>` starts anywhere in `s`. */
  predicate TagFree(s: string) {
    forall i :: 0 <= i < |s| ==> TagLength(s[i..]).None?
  }

  /** The replacement leaves no markup behind: its result has no match of
      the pattern left in it. */
  lemma {:induction false} StripLeavesNoTag(s: string)
    ensures TagFree(StripMarkup(s))
    decreases |s|
  {
    if s != [] {
      match TagLength(s)
      case Some(k) =>
        StripLeavesNoTag(s[k..]);
      case None =>
        var t := StripMarkup(s[1..]);
        StripLeavesNoTag(s[1..]);
        var r := [s[0]] + t;
        assert r == StripMarkup(s);
        forall i | 0 <= i < |r| ensures TagLength(r[i..]).None? {
          if i > 0 {
            assert r[i..] == t[i - 1..];
          } else if s[0] == '<' {
            if |s| >= 2 && s[1] == '>' {
              assert TagLength(s[1..]).None?;
              assert t == [s[1]] + StripMarkup(s[2..]) by {
                assert s[1..][1..] == s[2..];
              }
              assert r[1] == '>';
            } else if |s| >= 2 {
              assert forall j :: 1 <= j < |s| && s[j] == '>' ==> MatchesTag(s, j + 1);
              StripInside(s[1..]);
              assert forall j :: 2 <= j < |r| ==> r[j] == t[j - 1] && t[j - 1] in s[1..];
            }
          }
        }
    }
  }

  /** Text without markup passes through the replacement unchanged. */
  lemma {:induction false} StripKeepsTagFree(s: string)
    requires TagFree(s)
    ensures StripMarkup(s) == s
    decreases |s|
  {
    if s != [] {
      assert s[0..] == s;
      assert TagLength(s).None?;
      assert TagFree(s[1..]) by {
        forall i | 0 <= i < |s[1..]| ensures TagLength(s[1..][i..]).None? {
          assert s[1..][i..] == s[i + 1..];
        }
      }
      StripKeepsTagFree(s[1..]);
    }
  }

  /** Stripping markup twice is stripping it once. */
  lemma StripIdempotent(s: string)
    ensures StripMarkup(StripMarkup(s)) == StripMarkup(s)
  {
    StripLeavesNoTag(s);
    StripKeepsTagFree(StripMarkup(s));
  }

  /** A string without '<' holds no markup. */
  lemma NoAngleIsTagFree(s: string)
    requires '<' !in s
    ensures StripMarkup(s) == s
  {
    assert TagFree(s) by {
      forall i | 0 <= i < |s| ensures TagLength(s[i..]).None? {
        assert s[i..][0] == s[i];
      }
    }
    StripKeepsTagFree(s);
  }

  /** Text in which no match starts is kept as it is, whatever follows it;
      this includes a '<' that starts no match, as in `"<>"`. */
  lemma {:induction false} StripKeepsUnmatchedPrefix(a: string, b: string)
    requires forall i :: 0 <= i < |a| ==> TagLength((a + b)[i..]).None?
    ensures StripMarkup(a + b) == a + StripMarkup(b)
    decreases |a|
  {
    if a == [] {
      assert a + b == b;
    } else {
      var s := a + b;
      assert s[0..] == s;
      assert s[1..] == a[1..] + b;
      forall i | 0 <= i < |a[1..]| ensures TagLength((a[1..] + b)[i..]).None? {
        assert (a[1..] + b)[i..] == s[i + 1..];
      }
      StripKeepsUnmatchedPrefix(a[1..], b);
    }
  }

  /** Text with no '<' in it is kept as it is, whatever follows it. */
  lemma StripKeepsPlainPrefix(a: string, b: string)
    requires '<' !in a
    ensures StripMarkup(a + b) == a + StripMarkup(b)
  {
    forall i | 0 <= i < |a| ensures TagLength((a + b)[i..]).None? {
      assert (a + b)[i..][0] == a[i];
    }
    StripKeepsUnmatchedPrefix(a, b);
  }

  /** A match at the front is removed whole, and scanning resumes right
      after it. */
  lemma StripDropsLeadingTag(t: string, b: string)
    requires MatchesTag(t, |t|)
    ensures StripMarkup(t + b) == StripMarkup(b)
  {
    var s := t + b;
    assert forall j :: 0 <= j < |t| ==> s[j] == t[j];
    assert MatchesTag(s, |t|);
    assert s[|t|..] == b;
  }

  /** `"<p>d</p>"` strips to `"d"`: both tags go, the text between them
      stays. */
  lemma StripParagraph()
    ensures StripMarkup("<p>d</p>") == "d"
  {
    assert MatchesTag("<p>", 3);
    assert MatchesTag("</p>", 4);
    StripDropsLeadingTag("<p>", "d</p>");
    assert "<p>d</p>" == "<p>" + "d</p>";
    StripKeepsPlainPrefix("d", "</p>");
    assert "d</p>" == "d" + "</p>";
    StripDropsLeadingTag("</p>", "");
    assert "</p>" == "</p>" + "";
  }

  /** `"<>"` is no match, so it is kept even when markup follows:
      `"<><p>"` strips to `"<>"`. */
  lemma StripKeepsEmptyBrackets()
    ensures StripMarkup("<><p>") == "<>"
  {
    var s := "<><p>";
    assert TagLength(s).None?;
    assert TagLength(s[1..]).None?;
    StripKeepsUnmatchedPrefix("<>", "<p>");
    assert s == "<>" + "<p>";
    assert MatchesTag("<p>", 3);
    StripDropsLeadingTag("<p>", "");
    assert "<p>" == "<p>" + "";
  }
}
