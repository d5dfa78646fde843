/** The README viewer's rewrite of relative images: every markdown image whose target
    starts with "./" is pointed at the snippet's folder on the raw-content host, so
    that it can be loaded from outside the repository. The rewrite follows the global
    replacement of the pattern  !\[([^\]]*)]\((\.\/[^)]+)\)  scanning left to right. */
module Readme {
  import opened Wrappers
  import opened Catalog

  /** The length of the longest prefix of `s` without `c`; when it is shorter than `s`,
      `c` comes right after it. */
  function SpanWithout(s: string, c: char): (n: nat)
    ensures n <= |s|
    ensures c !in s[..n]
    ensures n < |s| ==> s[n] == c
  {
    if s == [] || s[0] == c then 0
    else
      assert s[..1 + SpanWithout(s[1..], c)] == [s[0]] + s[1..][..SpanWithout(s[1..], c)];
      1 + SpanWithout(s[1..], c)
  }

  lemma {:induction false} SpanWithoutStopsAtFirst(p: string, c: char, t: string)
    requires c !in p
    ensures SpanWithout(p + [c] + t, c) == |p|
  {
    if p != [] {
      assert (p + [c] + t)[1..] == p[1..] + [c] + t;
      SpanWithoutStopsAtFirst(p[1..], c, t);
    }
  }

  /** The markdown text of an image with alternative text `alt` and target `target`. */
  function ImageText(alt: string, target: string): string {
    "![" + alt + "](" + target + ")"
  }

  /** One match of the pattern: the alternative text, and the target with its leading
      "./" removed. */
  datatype ImageLink = ImageLink(alt: string, rest: string) {
    function Length(): nat {
      |alt| + |rest| + 7
    }
  }

  /** Tries the pattern at the start of `s`. The alternative text runs to the first "]",
      which must be followed by "(./"; the rest of the target runs to the first ")" and
      must not be empty. */
  function MatchImage(s: string): (m: Option<ImageLink>)
    ensures m.Some? ==>
      && ']' !in m.value.alt
      && m.value.rest != [] && ')' !in m.value.rest
      && m.value.Length() <= |s|
      && s[..m.value.Length()] == ImageText(m.value.alt, "./" + m.value.rest)
  {
    if |s| < 2 || s[0] != '!' || s[1] != '[' then None
    else
      var j := 2 + SpanWithout(s[2..], ']');
      if j + 3 >= |s| || s[j + 1] != '(' || s[j + 2] != '.' || s[j + 3] != '/' then None
      else
        var k := j + 4 + SpanWithout(s[j + 4..], ')');
        if k == j + 4 || k >= |s| then None
        else
          assert s[2..][..j - 2] == s[2..j];
          assert s[j + 4..][..k - j - 4] == s[j + 4..k];
          ImageTextAt(s, j, k);
          Some(ImageLink(s[2..j], s[j + 4..k]))
  }

  /** The characters the pattern checks, at the places it checks them, spell an image. */
  lemma ImageTextAt(s: string, j: nat, k: nat)
    requires 2 <= j && j + 4 <= k < |s|
    requires s[0] == '!' && s[1] == '[' && s[k] == ')'
    requires s[j] == ']' && s[j + 1] == '(' && s[j + 2] == '.' && s[j + 3] == '/'
    ensures s[..k + 1] == ImageText(s[2..j], "./" + s[j + 4..k])
  {
    assert s[..k + 1] == s[..2] + s[2..j] + s[j..j + 4] + s[j + 4..k] + s[k..k + 1];
    assert s[..2] == "![" && s[j..j + 4] == "](./" && s[k..k + 1] == ")";
  }

  /** Where the parts of an image followed by `t` sit in the text. */
  lemma ImageLayout(alt: string, target: string, t: string)
    ensures var s, j := ImageText(alt, target) + t, 2 + |alt|;
            && |s| == j + 3 + |target| + |t|
            && s[0] == '!' && s[1] == '['
            && s[2..] == alt + [']'] + ("(" + target + ")" + t)
            && s[2..j] == alt
            && s[j + 1] == '('
            && s[j + 2..] == target + [')'] + t
  {
  }

  /** Whether a link target is relative to the README's folder in the sense of the
      pattern: "./" followed by at least one character. */
  predicate IsRelativeTarget(target: string) {
    |target| > 2 && target[..2] == "./"
  }

  /** The pattern rejects an image whose target, found after the alternative text, is
      not relative. */
  lemma MatchImageRejects(s: string, j: nat, target: string, t: string)
    requires 2 <= j && j + 2 <= |s| && s[0] == '!' && s[1] == '[' && SpanWithout(s[2..], ']') == j - 2
    requires s[j + 2..] == target + [')'] + t
    requires ')' !in target && !IsRelativeTarget(target)
    ensures MatchImage(s) == None
  {
    var after := target + [')'] + t;
    assert |s| == j + 2 + |after|;
    if |target| == 0 {
      assert s[j + 2] == after[0] == ')';
    } else if |target| == 1 {
      assert s[j + 3] == after[1] == ')';
    } else if |target| == 2 {
      assert s[j + 4] == after[2] == ')';
    } else {
      assert s[j + 2] == target[0] && s[j + 3] == target[1];
      assert target[..2] == [target[0], target[1]];
    }
  }

  /** The pattern accepts an image whose target, found after the alternative text, is
      relative. */
  lemma MatchImageAccepts(s: string, j: nat, rest: string, t: string)
    requires 2 <= j && j + 2 <= |s| && s[0] == '!' && s[1] == '[' && SpanWithout(s[2..], ']') == j - 2
    requires s[j + 1] == '(' && s[j + 2..] == "./" + (rest + [')'] + t)
    requires rest != [] && ')' !in rest
    ensures MatchImage(s) == Some(ImageLink(s[2..j], rest))
  {
    assert s[j + 2] == '.' && s[j + 3] == '/';
    assert s[j + 4..] == rest + [')'] + t;
    SpanWithoutStopsAtFirst(rest, ')', t);
    assert s[j + 4..j + 4 + |rest|] == rest;
  }

  /** At the start of a well-formed image, the pattern matches exactly when its target
      is relative, and then yields the alternative text and the target without "./". */
  lemma MatchImageAtImage(alt: string, target: string, t: string)
    requires ']' !in alt && ')' !in target
    ensures MatchImage(ImageText(alt, target) + t)
            == if IsRelativeTarget(target) then Some(ImageLink(alt, target[2..])) else None
  {
    var s, j := ImageText(alt, target) + t, 2 + |alt|;
    ImageLayout(alt, target, t);
    SpanWithoutStopsAtFirst(alt, ']', "(" + target + ")" + t);
    if IsRelativeTarget(target) {
      var rest := target[2..];
      assert target == "./" + rest;
      assert target + [')'] + t == "./" + (rest + [')'] + t);
      MatchImageAccepts(s, j, rest, t);
    } else {
      MatchImageRejects(s, j, target, t);
    }
  }

  /** `rewriteRelativeMediaPaths`: rewrites every match, left to right, to the same
      image with its target resolved against the snippet's raw-content folder; all other
      text is copied. */
  function RewriteRelativeMediaPaths(snippet: Snippet, content: string): (r: string)
    ensures |r| >= |content|
    decreases |content|
  {
    if content == [] then []
    else match MatchImage(content)
      case Some(link) =>
        ImageText(link.alt, RawBase(snippet) + link.rest)
          + RewriteRelativeMediaPaths(snippet, content[link.Length()..])
      case None => [content[0]] + RewriteRelativeMediaPaths(snippet, content[1..])
  }

  /** A character that cannot start a match is copied as it is. */
  lemma RewriteCopiesCharacter(snippet: Snippet, s: string)
    requires s != [] && s[0] != '!'
    ensures RewriteRelativeMediaPaths(snippet, s) == [s[0]] + RewriteRelativeMediaPaths(snippet, s[1..])
  {
  }

  /** Text with no "!" is copied unchanged. */
  lemma {:induction false} RewriteCopiesPlainText(snippet: Snippet, p: string, t: string)
    requires '!' !in p
    ensures RewriteRelativeMediaPaths(snippet, p + t) == p + RewriteRelativeMediaPaths(snippet, t)
  {
    if p != [] {
      var s := p + t;
      assert s[0] == p[0];
      assert s[1..] == p[1..] + t;
      RewriteCopiesCharacter(snippet, s);
      RewriteCopiesPlainText(snippet, p[1..], t);
      calc {
        RewriteRelativeMediaPaths(snippet, s);
        [p[0]] + RewriteRelativeMediaPaths(snippet, p[1..] + t);
        [p[0]] + (p[1..] + RewriteRelativeMediaPaths(snippet, t));
        { assert p == [p[0]] + p[1..]; }
        p + RewriteRelativeMediaPaths(snippet, t);
      }
    } else {
      assert p + t == t;
    }
  }

  /** An image with a relative target becomes the same image pointing into the
      snippet's folder on the raw-content host; what follows is rewritten on its own. */
  lemma RewriteResolvesRelativeImage(snippet: Snippet, alt: string, rest: string, t: string)
    requires ']' !in alt && rest != [] && ')' !in rest
    ensures RewriteRelativeMediaPaths(snippet, ImageText(alt, "./" + rest) + t)
            == ImageText(alt, RawBase(snippet) + rest) + RewriteRelativeMediaPaths(snippet, t)
  {
    var target := "./" + rest;
    MatchImageAtImage(alt, target, t);
    assert target[2..] == rest;
    var s := ImageText(alt, target) + t;
    assert s[ImageLink(alt, rest).Length()..] == t;
  }

  /** A match cannot start inside the alternative text of an image whose target is not
      relative: from a "!" there, the alternative text of the attempt runs to the image's
      own "]", and the attempt then meets the same target. `a` is what is left of the
      alternative text from that position on. */
  lemma MatchImageRejectsInAlt(a: string, target: string, t: string)
    requires ']' !in a && ')' !in target && !IsRelativeTarget(target)
    ensures MatchImage(a + ("](" + target + ")" + t)) == None
  {
    var s := a + ("](" + target + ")" + t);
    if |a| >= 2 && s[0] == '!' && s[1] == '[' {
      assert s[2..] == a[2..] + [']'] + ("(" + target + ")" + t);
      SpanWithoutStopsAtFirst(a[2..], ']', "(" + target + ")" + t);
      assert s[|a| + 2..] == target + [')'] + t;
      MatchImageRejects(s, |a|, target, t);
    } else if |a| < 2 {
      assert s[|a|] == ']';
    }
  }

  /** A character at which no match starts is copied as it is. */
  lemma RewriteCopiesUnmatched(snippet: Snippet, s: string)
    requires s != [] && MatchImage(s).None?
    ensures RewriteRelativeMediaPaths(snippet, s) == [s[0]] + RewriteRelativeMediaPaths(snippet, s[1..])
  {
  }

  /** `u` closes alternative text, and no match starts inside alternative text followed
      by `u`. */
  ghost predicate NoMatchInAltBefore(u: string) {
    && u != [] && u[0] == ']'
    && forall a: string | ']' !in a :: MatchImage(a + u).None?
  }

  /** What follows the alternative text of an image whose target is not relative
      stops every match that starts inside that alternative text. */
  lemma NoMatchInAltBeforeOtherTarget(target: string, t: string)
    requires ')' !in target && !IsRelativeTarget(target)
    ensures NoMatchInAltBefore("](" + target + ")" + t)
  {
    forall a: string | ']' !in a
      ensures MatchImage(a + ("](" + target + ")" + t)).None?
    {
      MatchImageRejectsInAlt(a, target, t);
    }
  }

  /** Alternative text followed by `u`, at no position of which a match starts, is copied
      unchanged. */
  lemma {:induction false} RewriteCopiesAltText(snippet: Snippet, a: string, u: string)
    requires ']' !in a && NoMatchInAltBefore(u)
    ensures RewriteRelativeMediaPaths(snippet, a + u) == a + RewriteRelativeMediaPaths(snippet, u)
  {
    if a == [] {
      assert a + u == u;
    } else {
      var s := a + u;
      assert s[1..] == a[1..] + u;
      RewriteCopiesUnmatched(snippet, s);
      RewriteCopiesAltText(snippet, a[1..], u);
      calc {
        RewriteRelativeMediaPaths(snippet, s);
        [a[0]] + RewriteRelativeMediaPaths(snippet, a[1..] + u);
        [a[0]] + (a[1..] + RewriteRelativeMediaPaths(snippet, u));
        { assert a == [a[0]] + a[1..]; }
        a + RewriteRelativeMediaPaths(snippet, u);
      }
    }
  }

  /** An image whose target is not relative is copied unchanged, provided its target
      holds no "!" that could start a match of its own. */
  lemma RewriteKeepsOtherImage(snippet: Snippet, alt: string, target: string, t: string)
    requires ']' !in alt && ')' !in target && '!' !in target && !IsRelativeTarget(target)
    ensures RewriteRelativeMediaPaths(snippet, ImageText(alt, target) + t)
            == ImageText(alt, target) + RewriteRelativeMediaPaths(snippet, t)
  {
    var head, tail := "![" + alt, "](" + target + ")";
    var u := tail + t;
    MatchImageAtImage(alt, target, t);
    assert ImageText(alt, target) + t == head + u;
    assert ImageText(alt, target) == head + tail;
    assert RewriteRelativeMediaPaths(snippet, head + u) == head + RewriteRelativeMediaPaths(snippet, u) by {
      assert u == "](" + target + ")" + t;
      NoMatchInAltBeforeOtherTarget(target, t);
      RewriteCopiesAltText(snippet, head, u);
    }
    assert RewriteRelativeMediaPaths(snippet, u) == tail + RewriteRelativeMediaPaths(snippet, t) by {
      assert '!' !in tail;
      RewriteCopiesPlainText(snippet, tail, t);
    }
  }

  /** Content in which the pattern matches nowhere is left as it is. */
  lemma {:induction false} RewriteWithoutMatches(snippet: Snippet, content: string)
    requires forall i :: 0 <= i <= |content| ==> MatchImage(content[i..]).None?
    ensures RewriteRelativeMediaPaths(snippet, content) == content
  {
    if content != [] {
      assert content[0..] == content;
      forall i | 0 <= i <= |content[1..]|
        ensures MatchImage(content[1..][i..]).None?
      {
        assert content[1..][i..] == content[i + 1..];
      }
      RewriteWithoutMatches(snippet, content[1..]);
      assert content == [content[0]] + content[1..];
    }
  }
}
