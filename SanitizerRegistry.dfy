/**
  The sanitizer registry of HtmlSanitizerServiceImpl: every registered
  sanitizer descriptor, in registration order, and the effective list
  derived from it, in which the last registration of each name wins and
  appears only if it is enabled.
 */
module SanitizerRegistry {
  import opened Wrappers

  /** A field to sanitize. When filterField is set, the field is sanitized
      only if (filterValue equals the filter property's text) == doSanitize.
      filterValue is None when the descriptor leaves it null. */
  datatype FieldDescriptor = FieldDescriptor(
    contentField: string,
    filterField: Option<string>,
    filterValue: Option<string>,
    doSanitize: bool)

  /** A contributed sanitizer. Descriptors are objects: List.remove finds
      them by identity. They are not changed after registration. */
  class SanitizerDescriptor {
    const name: string
    const enabled: bool
    /** The document types it applies to; empty means every type. */
    const types: seq<string>
    const fields: seq<FieldDescriptor>

    constructor (name: string, enabled: bool, types: seq<string>, fields: seq<FieldDescriptor>)
      ensures this.name == name && this.enabled == enabled
      ensures this.types == types && this.fields == fields
    {
      this.name := name;
      this.enabled := enabled;
      this.types := types;
      this.fields := fields;
    }
  }

  // ----- List.remove(Object) -----

  /** The position of the first occurrence of x. */
  function FirstIndex<T(==)>(xs: seq<T>, x: T): (i: nat)
    requires x in xs
    ensures i < |xs| && xs[i] == x && x !in xs[..i]
  {
    if xs[0] == x then 0
    else
      var i := FirstIndex(xs[1..], x) + 1;
      assert xs[..i] == [xs[0]] + xs[1..][..i - 1];
      i
  }

  /** Removes the first occurrence of x, if there is one, keeping the
      order of the rest. */
  function RemoveFirst<T(==)>(xs: seq<T>, x: T): (r: seq<T>)
    ensures x !in xs ==> r == xs
    ensures x in xs ==> r == xs[..FirstIndex(xs, x)] + xs[FirstIndex(xs, x) + 1..]
    ensures forall y :: y in r ==> y in xs
  {
    if x in xs then
      var i := FirstIndex(xs, x);
      assert forall y :: y in xs[..i] ==> y in xs;
      assert forall y :: y in xs[i + 1..] ==> y in xs;
      xs[..i] + xs[i + 1..]
    else
      xs
  }

  // ----- The effective list -----

  predicate NameIn(s: seq<SanitizerDescriptor>, n: string) {
    exists i :: 0 <= i < |s| && s[i].name == n
  }

  predicate UniqueNames(s: seq<SanitizerDescriptor>) {
    forall i, j :: 0 <= i < j < |s| ==> s[i].name != s[j].name
  }

  /** The reference definition of the effective list: a registration
      survives when it is enabled and no later registration has its name;
      survivors keep their registration order. */
  function LastEnabled(all: seq<SanitizerDescriptor>): seq<SanitizerDescriptor> {
    if all == [] then []
    else (if all[0].enabled && !NameIn(all[1..], all[0].name) then [all[0]] else []) + LastEnabled(all[1..])
  }

  /** The inner loop of refreshSanitizers: drops the first entry with the
      given name, if there is one. */
  function DropName(s: seq<SanitizerDescriptor>, n: string): seq<SanitizerDescriptor> {
    if s == [] then []
    else if s[0].name == n then s[1..]
    else [s[0]] + DropName(s[1..], n)
  }

  /** Dropping a name removes its first occurrence and nothing else. */
  lemma {:induction false} DropNameFirst(s: seq<SanitizerDescriptor>, k: int, n: string)
    requires 0 <= k < |s| && s[k].name == n
    requires forall i :: 0 <= i < k ==> s[i].name != n
    ensures DropName(s, n) == s[..k] + s[k + 1..]
  {
    if k > 0 {
      var t := s[1..];
      forall i | 0 <= i < k - 1 ensures t[i].name != n {
        assert t[i] == s[i + 1];
      }
      assert t[k - 1] == s[k];
      DropNameFirst(t, k - 1, n);
      assert t[..k - 1] + t[k..] == s[1..k] + s[k + 1..];
      assert s[..k] == [s[0]] + s[1..k];
    }
  }

  lemma {:induction false} DropAbsentName(s: seq<SanitizerDescriptor>, n: string)
    requires !NameIn(s, n)
    ensures DropName(s, n) == s
  {
    if s != [] {
      assert s[0].name != n;
      forall i | 0 <= i < |s[1..]| ensures s[1..][i].name != n {
        assert s[1..][i] == s[i + 1];
      }
      DropAbsentName(s[1..], n);
      assert s == [s[0]] + s[1..];
    }
  }

  /** Every effective sanitizer is an enabled registration. */
  lemma {:induction false} LastEnabledFromAll(all: seq<SanitizerDescriptor>)
    ensures forall x :: x in LastEnabled(all) ==> x in all && x.enabled
  {
    if all != [] {
      LastEnabledFromAll(all[1..]);
      assert forall x :: x in all[1..] ==> x in all;
    }
  }

  lemma NameInMember(s: seq<SanitizerDescriptor>, t: seq<SanitizerDescriptor>, n: string)
    requires forall x :: x in s ==> x in t
    requires NameIn(s, n)
    ensures NameIn(t, n)
  {
    var i :| 0 <= i < |s| && s[i].name == n;
    assert s[i] in t;
    var j :| 0 <= j < |t| && t[j] == s[i];
  }

  /** No two effective sanitizers share a name. */
  lemma {:induction false} LastEnabledUniqueNames(all: seq<SanitizerDescriptor>)
    ensures UniqueNames(LastEnabled(all))
  {
    if all != [] {
      LastEnabledUniqueNames(all[1..]);
      var rest := LastEnabled(all[1..]);
      if all[0].enabled && !NameIn(all[1..], all[0].name) {
        LastEnabledFromAll(all[1..]);
        assert !NameIn(rest, all[0].name) by {
          if NameIn(rest, all[0].name) {
            NameInMember(rest, all[1..], all[0].name);
          }
        }
        var r := [all[0]] + rest;
        forall i, j | 0 <= i < j < |r| ensures r[i].name != r[j].name {
          if i == 0 {
            assert r[j] == rest[j - 1];
          } else {
            assert r[i] == rest[i - 1] && r[j] == rest[j - 1];
          }
        }
      } else {
        assert LastEnabled(all) == rest;
      }
    }
  }

  /** A registration is effective exactly when it is enabled and is the
      last registration with its name. */
  lemma {:induction false} LastEnabledMembers(all: seq<SanitizerDescriptor>, x: SanitizerDescriptor)
    ensures x in LastEnabled(all) <==>
              exists j :: 0 <= j < |all| && all[j] == x && x.enabled && !NameIn(all[j + 1..], x.name)
  {
    if all != [] {
      LastEnabledMembers(all[1..], x);
      var keep := all[0].enabled && !NameIn(all[1..], all[0].name);
      var head := if keep then [all[0]] else [];
      assert LastEnabled(all) == head + LastEnabled(all[1..]);
      if x in LastEnabled(all[1..]) {
        var j :| 0 <= j < |all[1..]| && all[1..][j] == x && x.enabled && !NameIn(all[1..][j + 1..], x.name);
        assert all[j + 1] == x && all[j + 2..] == all[1..][j + 1..];
      }
      if exists j :: 0 <= j < |all| && all[j] == x && x.enabled && !NameIn(all[j + 1..], x.name) {
        var j :| 0 <= j < |all| && all[j] == x && x.enabled && !NameIn(all[j + 1..], x.name);
        if j == 0 {
          assert x in head;
        } else {
          assert all[1..][j - 1] == x && all[1..][j..] == all[j + 1..];
        }
      }
    }
  }

  /** For a registered name: the effective list has an entry with that
      name exactly when the last registration of the name is enabled, and
      then that entry is the last registration. */
  lemma LastRegistrationWins(all: seq<SanitizerDescriptor>, j: int)
    requires 0 <= j < |all| && !NameIn(all[j + 1..], all[j].name)
    ensures NameIn(LastEnabled(all), all[j].name) <==> all[j].enabled
    ensures forall x :: x in LastEnabled(all) && x.name == all[j].name ==> x == all[j]
  {
    var e := LastEnabled(all);
    LastEnabledFromAll(all);
    forall x | x in e && x.name == all[j].name ensures x == all[j] {
      LastEnabledMembers(all, x);
      var k :| 0 <= k < |all| && all[k] == x && x.enabled && !NameIn(all[k + 1..], x.name);
      LaterName(all, k, j);
      LaterName(all, j, k);
    }
    if all[j].enabled {
      LastEnabledMembers(all, all[j]);
      var i :| 0 <= i < |e| && e[i] == all[j];
    }
    if NameIn(e, all[j].name) {
      var i :| 0 <= i < |e| && e[i].name == all[j].name;
      assert e[i] in e;
    }
  }

  /** A registration after position k is in the suffix after k. */
  lemma LaterName(all: seq<SanitizerDescriptor>, k: int, j: int)
    requires 0 <= k < |all| && 0 <= j < |all|
    ensures k < j ==> NameIn(all[k + 1..], all[j].name)
  {
    if k < j {
      assert all[k + 1..][j - k - 1] == all[j];
    }
  }

  /** Processing one more registration, as the outer loop of
      refreshSanitizers does: the entry with its name is dropped and the
      registration appended if it is enabled. */
  lemma {:induction false} LastEnabledSnoc(all: seq<SanitizerDescriptor>, s: SanitizerDescriptor)
    ensures LastEnabled(all + [s]) == DropName(LastEnabled(all), s.name) + (if s.enabled then [s] else [])
  {
    var tail := if s.enabled then [s] else [];
    if all == [] {
      assert [] + [s] == [s] && [s][1..] == [];
      assert LastEnabled([s]) == tail + LastEnabled([]);
    } else {
      var h, t := all[0], all[1..];
      var ext := all + [s];
      assert ext[0] == h && ext[1..] == t + [s];
      LastEnabledSnoc(t, s);
      NameInSnoc(t, s, h.name);
      var keep := h.enabled && !NameIn(t, h.name);
      var rest := LastEnabled(t);
      assert LastEnabled(all) == (if keep then [h] else []) + rest;
      var keep' := h.enabled && !NameIn(t + [s], h.name);
      assert LastEnabled(ext) == (if keep' then [h] else []) + (DropName(rest, s.name) + tail);
      if keep && h.name == s.name {
        LastEnabledFromAll(t);
        assert !NameIn(rest, s.name) by {
          if NameIn(rest, s.name) { NameInMember(rest, t, s.name); }
        }
        DropAbsentName(rest, s.name);
        assert DropName([h] + rest, s.name) == rest;
      } else if keep {
        assert DropName([h] + rest, s.name) == [h] + DropName(rest, s.name);
        assert [h] + (DropName(rest, s.name) + tail) == ([h] + DropName(rest, s.name)) + tail;
      } else {
        assert LastEnabled(all) == rest;
      }
    }
  }

  lemma NameInSnoc(t: seq<SanitizerDescriptor>, s: SanitizerDescriptor, n: string)
    ensures NameIn(t + [s], n) <==> NameIn(t, n) || s.name == n
  {
    if NameIn(t + [s], n) {
      var i :| 0 <= i < |t + [s]| && (t + [s])[i].name == n;
      if i < |t| { assert t[i] == (t + [s])[i]; }
    }
    if NameIn(t, n) {
      var i :| 0 <= i < |t| && t[i].name == n;
      assert (t + [s])[i] == t[i];
    }
    if s.name == n {
      assert (t + [s])[|t|] == s;
    }
  }

  /** A list of enabled sanitizers with distinct names is its own
      effective list. */
  lemma {:induction false} LastEnabledOfEffective(s: seq<SanitizerDescriptor>)
    requires UniqueNames(s) && forall x :: x in s ==> x.enabled
    ensures LastEnabled(s) == s
  {
    if s != [] {
      forall i | 0 <= i < |s[1..]| ensures s[1..][i].name != s[0].name {
        assert s[1..][i] == s[i + 1];
      }
      assert s[0] in s;
      assert forall x :: x in s[1..] ==> x in s;
      assert UniqueNames(s[1..]) by {
        forall i, j | 0 <= i < j < |s[1..]| ensures s[1..][i].name != s[1..][j].name {
          assert s[1..][i] == s[i + 1] && s[1..][j] == s[j + 1];
        }
      }
      LastEnabledOfEffective(s[1..]);
      assert s == [s[0]] + s[1..];
    }
  }

  /** The effective list is a fixed point: deriving it again from itself
      changes nothing. */
  lemma LastEnabledIdempotent(all: seq<SanitizerDescriptor>)
    ensures LastEnabled(LastEnabled(all)) == LastEnabled(all)
  {
    LastEnabledUniqueNames(all);
    LastEnabledFromAll(all);
    LastEnabledOfEffective(LastEnabled(all));
  }
}
