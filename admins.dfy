/** The administrator roster: `ADMIN_USER_IDS` is the environment string split
    on commas, and `is_admin` is membership of the actor's id in that list. */
module Admins {
  import opened Loans

  /** Python's `s.split(sep)` for a one-character separator: the pieces between
      separators, always at least one (so "" splits to [""]). */
  function Split(s: string, sep: char): (parts: seq<string>)
    ensures |parts| >= 1
    ensures forall i :: 0 <= i < |parts| ==> sep !in parts[i]
  {
    if s == [] then [""]
    else
      var rest := Split(s[1..], sep);
      if s[0] == sep then [""] + rest
      else [[s[0]] + rest[0]] + rest[1..]
  }

  /** The inverse of Split: the pieces with a separator between each two. */
  function Join(parts: seq<string>, sep: char): string
    requires |parts| >= 1
  {
    if |parts| == 1 then parts[0]
    else parts[0] + [sep] + Join(parts[1..], sep)
  }

  lemma {:induction false} JoinSplit(s: string, sep: char)
    ensures Join(Split(s, sep), sep) == s
  {
    if s != [] {
      var rest := Split(s[1..], sep);
      JoinSplit(s[1..], sep);
      if s[0] == sep {
        assert ([""] + rest)[1..] == rest;
      } else {
        var parts := [[s[0]] + rest[0]] + rest[1..];
        if |rest| == 1 {
          assert parts == [[s[0]] + rest[0]];
        } else {
          assert parts[1..] == rest[1..];
          assert Join(rest, sep) == rest[0] + [sep] + Join(rest[1..], sep);
        }
      }
    }
  }

  /** The roster read from the `ADMIN_USER_IDS` variable (unset reads as ""). */
  function Roster(env: string): (ids: seq<UserId>)
    ensures |ids| >= 1 && Join(ids, ',') == env
    ensures forall i :: 0 <= i < |ids| ==> ',' !in ids[i]
  {
    JoinSplit(env, ',');
    Split(env, ',')
  }

  /** `is_admin`: the actor's id, as a string, is one of the roster entries
      (compared exactly: no whitespace is trimmed). */
  predicate IsAdmin(actor: UserId, admins: seq<UserId>)
  {
    actor in admins
  }

  /** a stands in s at position i as one whole comma-separated field: it is
      preceded by the start or a comma and followed by the end or a comma. */
  predicate FieldAt(s: string, a: string, i: int)
  {
    && 0 <= i && i + |a| <= |s| && s[i..i + |a|] == a
    && (i == 0 || s[i - 1] == ',')
    && (i + |a| == |s| || s[i + |a|] == ',')
  }

  /** `is_admin` against the raw variable: an id is an administrator exactly
      when it has no comma and is one whole field of `ADMIN_USER_IDS`,
      character for character (nothing is trimmed). */
  lemma IsAdminIffField(actor: UserId, env: string)
    ensures IsAdmin(actor, Roster(env))
        <==> ',' !in actor && exists i :: FieldAt(env, actor, i)
  {
    var ids := Roster(env);
    JoinFields(ids, actor);
    assert Join(ids, ',') == env;
  }

  /** The same over any comma-free pieces and their comma join. */
  lemma {:induction false} JoinFields(parts: seq<string>, a: string)
    requires |parts| >= 1
    requires forall k :: 0 <= k < |parts| ==> ',' !in parts[k]
    ensures a in parts <==> ',' !in a && exists i :: FieldAt(Join(parts, ','), a, i)
  {
    var p := parts[0];
    assert ',' !in p;
    if |parts| == 1 {
      assert parts == [p] && Join(parts, ',') == p;
      if a in parts {
        assert a == p && p[0..|p|] == p;
        assert FieldAt(Join(parts, ','), a, 0);
      }
      if ',' !in a && exists i :: FieldAt(Join(parts, ','), a, i) {
        var i :| FieldAt(Join(parts, ','), a, i);
        FieldOfCommaFree(p, a, i);
        assert a in parts;
      }
    } else {
      var rest := parts[1..];
      var b := Join(rest, ',');
      assert parts == [p] + rest;
      assert Join(parts, ',') == p + [','] + b;
      JoinFields(rest, a);
      if a in parts {
        if a == p {
          FieldHead(p, b);
          assert FieldAt(Join(parts, ','), a, 0);
        } else {
          assert a in rest;
          var j :| FieldAt(b, a, j);
          FieldShift(p, b, a, j);
          assert FieldAt(Join(parts, ','), a, |p| + 1 + j);
        }
      }
      if ',' !in a && exists i :: FieldAt(Join(parts, ','), a, i) {
        var i :| FieldAt(Join(parts, ','), a, i);
        FieldSplit(p, b, a, i);
        if i > |p| {
          var j := i - |p| - 1;
          assert FieldAt(Join(rest, ','), a, j);
          assert a in rest;
        }
        assert a in parts;
      }
    }
  }

  /** In a comma-free string the only field is the whole string. */
  lemma FieldOfCommaFree(p: string, a: string, i: int)
    requires ',' !in p && FieldAt(p, a, i)
    ensures i == 0 && a == p
  {
    assert forall k :: 0 <= k < |p| ==> p[k] != ',';
    assert i == 0;
    assert |a| == |p|;
  }

  /** The first piece is a field of p + "," + b. */
  lemma FieldHead(p: string, b: string)
    ensures FieldAt(p + [','] + b, p, 0)
  {
    var s := p + [','] + b;
    assert s[0..|p|] == p && s[|p|] == ',';
  }

  /** A field of b is a field of p + "," + b, |p| + 1 places later. */
  lemma FieldShift(p: string, b: string, a: string, j: int)
    requires FieldAt(b, a, j)
    ensures FieldAt(p + [','] + b, a, |p| + 1 + j)
  {
    var s, i := p + [','] + b, |p| + 1 + j;
    assert s[i..i + |a|] == b[j..j + |a|];
    assert s[i - 1] == if j == 0 then ',' else b[j - 1];
    assert i + |a| == |s| || s[i + |a|] == b[j + |a|];
  }

  /** A comma-free field of p + "," + b, for a comma-free p, is either p
      itself or a field of b. */
  lemma FieldSplit(p: string, b: string, a: string, i: int)
    requires ',' !in p && ',' !in a && FieldAt(p + [','] + b, a, i)
    ensures (i == 0 && a == p) || (i > |p| && FieldAt(b, a, i - |p| - 1))
  {
    var s := p + [','] + b;
    assert s[|p|] == ',';
    assert forall k :: 0 <= k < |p| ==> s[k] == p[k] && p[k] != ',';
    assert forall k :: 0 <= k < |a| ==> a[k] != ',';
    if i <= |p| {
      assert i == 0;
      assert forall k :: 0 <= k < |a| ==> a[k] == s[k];
      assert |a| == |p|;
      assert a == s[0..|p|] == p;
    } else {
      var j := i - |p| - 1;
      assert b[j..j + |a|] == s[i..i + |a|];
      assert j == 0 || b[j - 1] == s[i - 1];
      assert j + |a| == |b| || b[j + |a|] == s[i + |a|];
    }
  }

  /** A piece without the separator, followed by the separator and a rest,
      splits to that piece followed by the split of the rest. */
  lemma {:induction false} SplitPiece(a: string, sep: char, b: string)
    requires sep !in a
    ensures Split(a + [sep] + b, sep) == [a] + Split(b, sep)
    ensures Split(a, sep) == [a]
  {
    if a == [] {
      assert a + [sep] + b == [sep] + b;
      assert ([sep] + b)[1..] == b;
    } else {
      SplitPiece(a[1..], sep, b);
      assert (a + [sep] + b)[1..] == a[1..] + [sep] + b;
      assert [a[0]] + a[1..] == a;
    }
  }

  /** Entries are not trimmed: with the roster written "42, 43", the ids "42"
      and " 43" are administrators and "43" is not. */
  lemma SpacesAreNotTrimmed()
    ensures IsAdmin("42", Roster("42, 43"))
    ensures IsAdmin(" 43", Roster("42, 43"))
    ensures !IsAdmin("43", Roster("42, 43"))
  {
    SplitPiece("42", ',', " 43");
    SplitPiece(" 43", ',', "");
    assert " 43" + [','] + "" == " 43" + [','];
    assert "42" + [','] + " 43" == "42, 43";
    assert "43" != " 43" && "43" != "42";
  }

  /** With the variable unset or empty, no real user (non-empty id) is an
      administrator. */
  lemma EmptyRosterAdmitsNobody(actor: UserId)
    requires actor != ""
    ensures !IsAdmin(actor, Roster(""))
  {
    assert Split("", ',') == [""];
  }
}
