/**
 * The dynamic permission predicates of `method_missing`: a call `admin?` on a
 * role answers `has("admin")`. A method name is accepted when it matches
 * `/^[a-z_]*\?$/`, and the key is the name with every `?` deleted; any other
 * name goes on to the superclass, which raises NoMethodError (here `None`).
 *
 * In Ruby `^` and `$` anchor at line boundaries, not at the ends of the string,
 * so a name with a newline is accepted when any one of its lines has the
 * predicate shape. `DispatchAsWritten` keeps that; `Dispatch` anchors at the
 * ends of the name, as the code evidently intends, and the role uses it.
 */
module PredicateNames {
  import opened Wrappers

  /** `[a-z_]` */
  predicate IsNameChar(c: char)
  {
    ('a' <= c <= 'z') || c == '_'
  }

  /** The text of a method name that asks about `key`: `key` followed by `?`. */
  function PredicateName(key: string): string
  {
    key + ['?']
  }

  /** `gsub(/\?/, '')` */
  function DeleteQuestionMarks(s: string): (r: string)
    ensures forall c :: c in r <==> c in s && c != '?'
    ensures |r| <= |s|
  {
    if s == [] then []
    else
      assert s == [s[0]] + s[1..];
      (if s[0] == '?' then [] else [s[0]]) + DeleteQuestionMarks(s[1..])
  }

  lemma {:induction false} DeleteQuestionMarksKeeps(s: string)
    requires '?' !in s
    ensures DeleteQuestionMarks(s) == s
  {
    if s != [] {
      assert s == [s[0]] + s[1..];
      DeleteQuestionMarksKeeps(s[1..]);
    }
  }

  lemma {:induction false} DeleteQuestionMarksAppend(a: string, b: string)
    ensures DeleteQuestionMarks(a + b) == DeleteQuestionMarks(a) + DeleteQuestionMarks(b)
  {
    if a == [] {
      assert a + b == b;
    } else {
      assert (a + b)[1..] == a[1..] + b;
      DeleteQuestionMarksAppend(a[1..], b);
    }
  }

  /**
   * The regular expression matches the line `s[start..end + 1]`: it starts the
   * name or follows a newline, is `[a-z_]*` then `?`, and ends the name or precedes a newline.
   */
  predicate LineMatchAt(s: string, start: int, end: int)
    requires 0 <= start <= end < |s|
  {
    (start == 0 || s[start - 1] == '\n') &&
    (forall k :: start <= k < end ==> IsNameChar(s[k])) &&
    s[end] == '?' &&
    (end + 1 == |s| || s[end + 1] == '\n')
  }

  /** `s =~ /^[a-z_]*\?$/` with Ruby's line anchors. */
  predicate MatchesAsWritten(s: string)
  {
    exists start, end | 0 <= start <= end < |s| :: LineMatchAt(s, start, end)
  }

  /** `method_missing` as written: the key `has` is called with, or `None` for a call passed to `super`. */
  function DispatchAsWritten(name: string): (r: Option<string>)
  {
    if MatchesAsWritten(name) then Some(DeleteQuestionMarks(name)) else None
  }

  /** The whole name is `[a-z_]*` followed by one `?`. */
  predicate IsPredicateName(s: string)
  {
    |s| > 0 && s[|s| - 1] == '?' && forall k :: 0 <= k < |s| - 1 ==> IsNameChar(s[k])
  }

  /** `method_missing` with the pattern anchored at the ends of the name. */
  function Dispatch(name: string): (r: Option<string>)
    ensures r.Some? <==> IsPredicateName(name)
    ensures r.Some? ==> name == PredicateName(r.value)
    ensures r.Some? ==> forall c :: c in r.value ==> IsNameChar(c)
  {
    if IsPredicateName(name) then
      var key := name[..|name| - 1];
      assert name == key + ['?'];
      assert forall c :: c in key ==> IsNameChar(c);
      DeleteQuestionMarksAppend(key, ['?']);
      DeleteQuestionMarksKeeps(key);
      Some(DeleteQuestionMarks(name))
    else None
  }

  /** Every key of lower-case letters and underscores has its predicate, and the predicate asks about that key. */
  lemma DispatchRoundTrip(key: string)
    requires forall c :: c in key ==> IsNameChar(c)
    ensures Dispatch(PredicateName(key)) == Some(key)
  {
    var name := PredicateName(key);
    assert name[..|name| - 1] == key;
    assert IsPredicateName(name);
  }

  /** A name with no newline is dispatched the same way by both readings of the pattern. */
  lemma AsWrittenAgreesWithoutNewline(name: string)
    requires '\n' !in name
    ensures DispatchAsWritten(name) == Dispatch(name)
  {
    if IsPredicateName(name) {
      assert LineMatchAt(name, 0, |name| - 1);
    }
    if MatchesAsWritten(name) {
      var start, end :| 0 <= start <= end < |name| && LineMatchAt(name, start, end);
      assert forall i :: 0 <= i < |name| ==> name[i] != '\n';
      assert start == 0 && end + 1 == |name|;
      assert IsPredicateName(name);
    }
  }

  /**
   * "A\nb?" is not a predicate name, yet its second line matches the pattern,
   * so as written it asks about the key "A\nb" instead of raising NoMethodError.
   */
  lemma AsWrittenAcceptsMultilineName()
    ensures DispatchAsWritten("A\nb?") == Some("A\nb")
    ensures Dispatch("A\nb?") == None
  {
    var s := "A\nb?";
    assert LineMatchAt(s, 2, 3);
    assert !IsNameChar(s[0]);
    assert s == "A\nb" + "?";
    DeleteQuestionMarksAppend("A\nb", "?");
    DeleteQuestionMarksKeeps("A\nb");
  }
}
