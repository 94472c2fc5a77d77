/**
 * `Role[value]`: find a role by a free-text name. The text is stripped of
 * surrounding whitespace, down-cased, has its spaces turned into underscores and
 * is then title-cased before an exact match on the role's name. Title-casing
 * comes from the framework's inflector, whose rules are not part of this model:
 * it is a parameter, `titleize`.
 */
module RoleLookup {
  import opened Wrappers
  import opened Schema

  /** The characters `lstrip` removes: tab, line feed, vertical tab, form feed, carriage return, space. */
  predicate IsLeadingSpace(c: char)
  {
    c == '\t' || c == '\n' || c == '\U{000B}' || c == '\U{000C}' || c == '\r' || c == ' '
  }

  /** The characters `rstrip` removes: those `lstrip` removes, and NUL. */
  predicate IsStripSpace(c: char)
  {
    c == '\0' || IsLeadingSpace(c)
  }

  /** `lstrip`: the suffix left after the leading whitespace. */
  function LStrip(s: string): (r: string)
    ensures |r| <= |s| && r == s[|s| - |r|..]
    ensures forall k :: 0 <= k < |s| - |r| ==> IsLeadingSpace(s[k])
    ensures r != [] ==> !IsLeadingSpace(r[0])
  {
    if s != [] && IsLeadingSpace(s[0]) then LStrip(s[1..]) else s
  }

  /** `rstrip`: the prefix left before the trailing whitespace. */
  function RStrip(s: string): (r: string)
    ensures |r| <= |s| && r == s[..|r|]
    ensures forall k :: |r| <= k < |s| ==> IsStripSpace(s[k])
    ensures r != [] ==> !IsStripSpace(r[|r| - 1])
  {
    if s != [] && IsStripSpace(s[|s| - 1]) then RStrip(s[..|s| - 1]) else s
  }

  function Strip(s: string): string
  {
    RStrip(LStrip(s))
  }

  /** `downcase` on one character: only 'A' to 'Z' change. */
  function LowerAscii(c: char): char
  {
    if 'A' <= c <= 'Z' then (c as int - 'A' as int + 'a' as int) as char else c
  }

  function Downcase(s: string): (r: string)
    ensures |r| == |s| && forall i :: 0 <= i < |s| ==> r[i] == LowerAscii(s[i])
  {
    if s == [] then [] else [LowerAscii(s[0])] + Downcase(s[1..])
  }

  /** `gsub(' ', '_')` */
  function SpacesToUnderscores(s: string): (r: string)
    ensures |r| == |s| && forall i :: 0 <= i < |s| ==> r[i] == if s[i] == ' ' then '_' else s[i]
  {
    if s == [] then [] else [if s[0] == ' ' then '_' else s[0]] + SpacesToUnderscores(s[1..])
  }

  /** `value.to_s.strip.downcase.gsub(' ', '_')`, the text handed to `titleize`. */
  function Canonicalize(s: string): string
  {
    SpacesToUnderscores(Downcase(Strip(s)))
  }

  /** `find_by_name`: the first role, in table order, with exactly that name. */
  function FindByName(roles: seq<RoleRecord>, name: string): (r: Option<RoleRecord>)
    ensures r.Some? ==> r.value in roles && r.value.name == Some(name)
    ensures r.None? <==> forall role :: role in roles ==> role.name != Some(name)
  {
    if roles == [] then None
    else if roles[0].name == Some(name) then Some(roles[0])
    else FindByName(roles[1..], name)
  }

  /** `Role[raw]`: a role whose name is the title-cased canonical form of `raw`, or nil when none has it. */
  function Lookup(roles: seq<RoleRecord>, titleize: string -> string, raw: string): (r: Option<RoleRecord>)
    ensures r.Some? ==> r.value in roles && r.value.name == Some(titleize(Canonicalize(raw)))
    ensures r.None? <==> forall role :: role in roles ==> role.name != Some(titleize(Canonicalize(raw)))
  {
    FindByName(roles, titleize(Canonicalize(raw)))
  }

  /** The canonical form has no surrounding whitespace, no space and no upper-case ASCII letter. */
  lemma CanonicalForm(s: string)
    ensures var c := Canonicalize(s);
            (c == [] || (!IsLeadingSpace(c[0]) && !IsStripSpace(c[|c| - 1]))) &&
            ' ' !in c &&
            forall i :: 0 <= i < |c| ==> !('A' <= c[i] <= 'Z')
  {
    var t := Strip(s);
    var c := Canonicalize(s);
    assert t != [] ==> !IsLeadingSpace(t[0]) by {
      if t != [] {
        var l := LStrip(s);
        assert t == l[..|t|];
      }
    }
  }

  lemma {:induction false} StripKeeps(s: string)
    requires s == [] || (!IsLeadingSpace(s[0]) && !IsStripSpace(s[|s| - 1]))
    ensures Strip(s) == s
  {
  }

  /** Canonicalising a canonical name changes nothing. */
  lemma CanonicalizeIdempotent(s: string)
    ensures Canonicalize(Canonicalize(s)) == Canonicalize(s)
  {
    var c := Canonicalize(s);
    CanonicalForm(s);
    StripKeeps(c);
    assert Downcase(c) == c;
    assert SpacesToUnderscores(c) == c;
  }

  lemma {:induction false} LStripDowncase(s: string)
    ensures LStrip(Downcase(s)) == Downcase(LStrip(s))
  {
    if s != [] {
      var d := Downcase(s);
      assert IsLeadingSpace(d[0]) == IsLeadingSpace(s[0]);
      if IsLeadingSpace(s[0]) {
        assert d[1..] == Downcase(s[1..]);
        LStripDowncase(s[1..]);
      }
    }
  }

  lemma {:induction false} RStripDowncase(s: string)
    ensures RStrip(Downcase(s)) == Downcase(RStrip(s))
  {
    if s != [] {
      var d := Downcase(s);
      var init := s[..|s| - 1];
      assert IsStripSpace(d[|d| - 1]) == IsStripSpace(s[|s| - 1]);
      if IsStripSpace(s[|s| - 1]) {
        assert d[..|d| - 1] == Downcase(init);
        RStripDowncase(init);
      }
    }
  }

  /** Names that differ only in the case of ASCII letters look up the same role. */
  lemma LookupIgnoresCase(roles: seq<RoleRecord>, titleize: string -> string, a: string, b: string)
    requires Downcase(a) == Downcase(b)
    ensures Lookup(roles, titleize, a) == Lookup(roles, titleize, b)
  {
    forall s | true
      ensures Downcase(Strip(s)) == Strip(Downcase(s))
    {
      LStripDowncase(s);
      RStripDowncase(LStrip(s));
    }
    assert Canonicalize(a) == Canonicalize(b) by {
      assert Downcase(Strip(a)) == Strip(Downcase(a));
      assert Downcase(Strip(b)) == Strip(Downcase(b));
    }
  }

  lemma {:induction false} LStripPrefix(pre: string, s: string)
    requires forall k :: 0 <= k < |pre| ==> IsLeadingSpace(pre[k])
    ensures LStrip(pre + s) == LStrip(s)
  {
    if pre != [] {
      assert (pre + s)[1..] == pre[1..] + s;
      LStripPrefix(pre[1..], s);
    } else {
      assert pre + s == s;
    }
  }

  lemma {:induction false} RStripSuffix(s: string, post: string)
    requires forall k :: 0 <= k < |post| ==> IsStripSpace(post[k])
    ensures RStrip(s + post) == RStrip(s)
  {
    if post != [] {
      assert (s + post)[..|s + post| - 1] == s + post[..|post| - 1];
      RStripSuffix(s, post[..|post| - 1]);
    } else {
      assert s + post == s;
    }
  }

  lemma {:induction false} LStripAppend(s: string, post: string)
    requires LStrip(s) != []
    ensures LStrip(s + post) == LStrip(s) + post
  {
    var t := s + post;
    assert t[0] == s[0];
    if IsLeadingSpace(s[0]) {
      assert LStrip(s) == LStrip(s[1..]);
      assert t[1..] == s[1..] + post;
      LStripAppend(s[1..], post);
      assert LStrip(t) == LStrip(t[1..]);
    } else {
      assert LStrip(s) == s && LStrip(t) == t;
    }
  }

  lemma {:induction false} RStripAllSpace(s: string)
    requires forall k :: 0 <= k < |s| ==> IsStripSpace(s[k])
    ensures RStrip(s) == []
  {
    if s != [] {
      RStripAllSpace(s[..|s| - 1]);
    }
  }

  lemma {:induction false} StripAllSpace(s: string)
    requires forall k :: 0 <= k < |s| ==> IsStripSpace(s[k])
    ensures Strip(s) == []
  {
    if s != [] && IsLeadingSpace(s[0]) {
      StripAllSpace(s[1..]);
    } else {
      RStripAllSpace(s);
    }
  }

  lemma StripPaddingVisible(s: string, post: string)
    requires LStrip(s) != []
    requires forall k :: 0 <= k < |post| ==> IsStripSpace(post[k])
    ensures Strip(s + post) == Strip(s)
  {
    LStripAppend(s, post);
    RStripSuffix(LStrip(s), post);
  }

  lemma StripPaddingBlank(s: string, post: string)
    requires LStrip(s) == []
    requires forall k :: 0 <= k < |post| ==> IsStripSpace(post[k])
    ensures Strip(s + post) == Strip(s)
  {
    LStripPrefix(s, post);
    StripAllSpace(post);
  }

  lemma StripPadding(pre: string, s: string, post: string)
    requires forall k :: 0 <= k < |pre| ==> IsLeadingSpace(pre[k])
    requires forall k :: 0 <= k < |post| ==> IsStripSpace(post[k])
    ensures Strip(pre + s + post) == Strip(s)
  {
    assert pre + s + post == pre + (s + post);
    LStripPrefix(pre, s + post);
    if LStrip(s) != [] {
      StripPaddingVisible(s, post);
    } else {
      StripPaddingBlank(s, post);
    }
  }

  /**
   * Whitespace around a name does not change which role it finds (a NUL counts
   * as whitespace only at the end, as for `strip`).
   */
  lemma LookupIgnoresPadding(roles: seq<RoleRecord>, titleize: string -> string, pre: string, s: string, post: string)
    requires forall k :: 0 <= k < |pre| ==> IsLeadingSpace(pre[k])
    requires forall k :: 0 <= k < |post| ==> IsStripSpace(post[k])
    ensures Lookup(roles, titleize, pre + s + post) == Lookup(roles, titleize, s)
  {
    StripPadding(pre, s, post);
  }
}
