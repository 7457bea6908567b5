/**
  What sanitizeDocument does to a document's properties, as a pure
  computation: the effective sanitizers are visited in order, those whose
  types admit the document visit their fields in order, and each field
  either is skipped, rewrites one String property with its cleaned text,
  or raises the NullPointerException of a filter test on a null property
  value or a null filterValue.
  The cleaner (sanitizeString under the current policy) is a parameter.
 */
module DocumentSanitizing {
  import opened Wrappers
  import opened SanitizerRegistry

  /** A property value: a String, or another Serializable of which only
      its toString() matters here. */
  datatype Value = Str(s: string) | Other(text: string)

  function Text(v: Value): string {
    match v
    case Str(s) => s
    case Other(t) => t
  }

  /** Document properties by path. A path that is not a key is one on
      which getProperty throws PropertyNotFoundException; None is a
      property whose value is null. */
  type Props = map<string, Option<Value>>

  predicate IsString(v: Option<Value>) {
    v.Some? && v.value.Str?
  }

  /** The state of a sanitizing pass: the properties, the paths whose
      setValue was called, and whether a NullPointerException ended it. */
  datatype Pass = Pass(props: Props, written: set<string>, failed: bool)

  datatype FilterOutcome = Sanitize | Skip | NullFilter

  /** The filter test: no filter field means sanitize; a missing filter
      property means skip; a null property value or a null filterValue
      raises; otherwise the field is sanitized when (filterValue equals
      the property's text) == doSanitize. */
  function CheckFilter(props: Props, f: FieldDescriptor): FilterOutcome {
    match f.filterField
    case None => Sanitize
    case Some(ff) =>
      if ff !in props then Skip
      else if props[ff].None? || f.filterValue.None? then NullFilter
      else if (f.filterValue.value == Text(props[ff].value)) != f.doSanitize then Skip
      else Sanitize
  }

  /** The filter test of f raises: its filter property exists and either
      that property's value or the descriptor's filterValue is null. */
  predicate FilterRaises(props: Props, f: FieldDescriptor) {
    f.filterField.Some? && f.filterField.value in props &&
    (props[f.filterField.value].None? || f.filterValue.None?)
  }

  /** One iteration of the inner loop. */
  function FieldStep(p: Pass, f: FieldDescriptor, clean: string -> string): Pass {
    if p.failed then p
    else match CheckFilter(p.props, f)
      case NullFilter => p.(failed := true)
      case Skip => p
      case Sanitize =>
        var k := f.contentField;
        if k in p.props && IsString(p.props[k]) && clean(p.props[k].value.s) != p.props[k].value.s then
          Pass(p.props[k := Some(Str(clean(p.props[k].value.s)))], p.written + {k}, false)
        else p
  }

  function FieldsPass(p: Pass, fs: seq<FieldDescriptor>, clean: string -> string): Pass
    decreases |fs|
  {
    if fs == [] then p else FieldsPass(FieldStep(p, fs[0], clean), fs[1..], clean)
  }

  /** The type test: a sanitizer with no types applies to every document. */
  predicate Applies(s: SanitizerDescriptor, docType: string) {
    |s.types| == 0 || docType in s.types
  }

  function SanitizerStep(p: Pass, docType: string, s: SanitizerDescriptor, clean: string -> string): Pass {
    if Applies(s, docType) then FieldsPass(p, s.fields, clean) else p
  }

  function SanitizersPass(p: Pass, docType: string, ss: seq<SanitizerDescriptor>, clean: string -> string): Pass
    decreases |ss|
  {
    if ss == [] then p else SanitizersPass(SanitizerStep(p, docType, ss[0], clean), docType, ss[1..], clean)
  }

  /** The full pass over a document's properties. */
  function Sanitized(props: Props, docType: string, ss: seq<SanitizerDescriptor>, clean: string -> string): Pass {
    SanitizersPass(Pass(props, {}, false), docType, ss, clean)
  }

  // ----- Invariants of a pass -----

  /** q is reachable from p: same paths; a changed property was newly
      written; Strings stay Strings; null and non-String values are never
      touched; a failed pass is final. */
  ghost predicate Evolves(p: Pass, q: Pass) {
    q.props.Keys == p.props.Keys &&
    p.written <= q.written &&
    (p.failed ==> q == p) &&
    (forall k :: k in q.written - p.written ==> k in p.props) &&
    (forall k :: k in p.props ==>
       (q.props[k] != p.props[k] ==> k in q.written) &&
       (IsString(p.props[k]) ==> IsString(q.props[k])) &&
       (!IsString(p.props[k]) ==> q.props[k] == p.props[k] && k !in q.written - p.written))
  }

  lemma EvolvesTransitive(p: Pass, q: Pass, r: Pass)
    requires Evolves(p, q) && Evolves(q, r)
    ensures Evolves(p, r)
  {
  }

  /** One field step either leaves the pass alone, fails it, or rewrites
      its content field with the cleaned text of a String; it writes only
      when the cleaned text differs from the old one. */
  lemma FieldStepEffect(p: Pass, f: FieldDescriptor, clean: string -> string)
    ensures Evolves(p, FieldStep(p, f, clean))
    ensures !p.failed ==> (FieldStep(p, f, clean).failed <==> FilterRaises(p.props, f))
    ensures FieldStep(p, f, clean).written <= p.written + {f.contentField}
    ensures FieldStep(p, f, clean).props != p.props ==>
              f.contentField in p.props && IsString(p.props[f.contentField]) &&
              FieldStep(p, f, clean).props == p.props[f.contentField := Some(Str(clean(p.props[f.contentField].value.s)))]
    ensures var q := FieldStep(p, f, clean);
              !q.failed && q != p ==>
                f.contentField in p.props && q.props[f.contentField] != p.props[f.contentField] &&
                q.written == p.written + {f.contentField}
    ensures var q := FieldStep(p, f, clean);
              q.failed && !p.failed ==> q == p.(failed := true)
  {
  }

  /** The skip rules: a sanitizer whose non-empty type list lacks the
      document's type does nothing, and a field whose filter property is
      missing, or whose filter test disagrees with doSanitize, does nothing. */
  lemma SkipRules(p: Pass, docType: string, s: SanitizerDescriptor, f: FieldDescriptor, clean: string -> string)
    ensures |s.types| != 0 && docType !in s.types ==> SanitizerStep(p, docType, s, clean) == p
    ensures f.filterField.Some? && f.filterField.value !in p.props ==> FieldStep(p, f, clean) == p
    ensures f.filterField.Some? && f.filterField.value in p.props && p.props[f.filterField.value].Some? &&
            f.filterValue.Some? &&
            (f.filterValue.value == Text(p.props[f.filterField.value].value)) != f.doSanitize ==>
              FieldStep(p, f, clean) == p
  {
  }

  /** Null-ness of a property survives any pass. */
  lemma NullKept(p: Pass, q: Pass, f: FieldDescriptor)
    requires Evolves(p, q)
    ensures FilterRaises(q.props, f) <==> FilterRaises(p.props, f)
  {
    if f.filterField.Some? && f.filterField.value in p.props {
      var ff := f.filterField.value;
      assert ff in q.props;
      if IsString(p.props[ff]) {
        assert IsString(q.props[ff]);
      } else {
        assert q.props[ff] == p.props[ff];
      }
    }
  }

  lemma {:induction false} FieldsPassEvolves(p: Pass, fs: seq<FieldDescriptor>, clean: string -> string)
    ensures Evolves(p, FieldsPass(p, fs, clean))
    ensures forall k :: k in FieldsPass(p, fs, clean).written - p.written ==>
              exists j :: 0 <= j < |fs| && fs[j].contentField == k
    ensures FieldsPass(p, fs, clean).failed <==>
              (p.failed || exists j :: 0 <= j < |fs| && FilterRaises(p.props, fs[j]))
    decreases |fs|
  {
    if fs != [] {
      var p1 := FieldStep(p, fs[0], clean);
      FieldStepEffect(p, fs[0], clean);
      FieldsPassEvolves(p1, fs[1..], clean);
      var q := FieldsPass(p1, fs[1..], clean);
      EvolvesTransitive(p, p1, q);
      forall k | k in q.written - p.written ensures exists j :: 0 <= j < |fs| && fs[j].contentField == k {
        if k !in p1.written {
          assert k in q.written - p1.written;
          var j :| 0 <= j < |fs[1..]| && fs[1..][j].contentField == k;
          assert fs[j + 1].contentField == k;
        } else {
          assert fs[0].contentField == k;
        }
      }
      forall j | 0 <= j < |fs[1..]| ensures FilterRaises(p1.props, fs[1..][j]) <==> FilterRaises(p.props, fs[j + 1]) {
        NullKept(p, p1, fs[j + 1]);
      }
      if exists j :: 0 <= j < |fs| && FilterRaises(p.props, fs[j]) {
        var j :| 0 <= j < |fs| && FilterRaises(p.props, fs[j]);
        if j > 0 { assert FilterRaises(p1.props, fs[1..][j - 1]); }
      }
    }
  }

  /** Path k is the content field of a field of a sanitizer in ss that
      applies to docType. */
  predicate TargetOf(ss: seq<SanitizerDescriptor>, docType: string, k: string) {
    exists i, j :: 0 <= i < |ss| && Applies(ss[i], docType) && 0 <= j < |ss[i].fields| &&
      ss[i].fields[j].contentField == k
  }

  /** Some field of a sanitizer in ss that applies to docType has its
      filter property in props, and either that value or the field's
      filterValue is null. */
  predicate FilterRaisesAmong(props: Props, ss: seq<SanitizerDescriptor>, docType: string) {
    exists i, j :: 0 <= i < |ss| && Applies(ss[i], docType) && 0 <= j < |ss[i].fields| &&
      FilterRaises(props, ss[i].fields[j])
  }

  lemma {:induction false} SanitizersPassEvolves(p: Pass, docType: string, ss: seq<SanitizerDescriptor>, clean: string -> string)
    ensures Evolves(p, SanitizersPass(p, docType, ss, clean))
    decreases |ss|
  {
    if ss != [] {
      var p1 := SanitizerStep(p, docType, ss[0], clean);
      FieldsPassEvolves(p, ss[0].fields, clean);
      SanitizersPassEvolves(p1, docType, ss[1..], clean);
      EvolvesTransitive(p, p1, SanitizersPass(p1, docType, ss[1..], clean));
    }
  }

  lemma {:induction false} SanitizersPassTargets(p: Pass, docType: string, ss: seq<SanitizerDescriptor>, clean: string -> string)
    ensures forall k :: k in SanitizersPass(p, docType, ss, clean).written - p.written ==> TargetOf(ss, docType, k)
    decreases |ss|
  {
    if ss != [] {
      var p1 := SanitizerStep(p, docType, ss[0], clean);
      FieldsPassEvolves(p, ss[0].fields, clean);
      SanitizersPassTargets(p1, docType, ss[1..], clean);
      var q := SanitizersPass(p1, docType, ss[1..], clean);
      forall k | k in q.written - p.written ensures TargetOf(ss, docType, k) {
        if k !in p1.written {
          assert k in q.written - p1.written;
          assert TargetOf(ss[1..], docType, k);
          var i, j :| 0 <= i < |ss[1..]| && Applies(ss[1..][i], docType) && 0 <= j < |ss[1..][i].fields| &&
                        ss[1..][i].fields[j].contentField == k;
          assert ss[i + 1] == ss[1..][i];
        } else {
          assert Applies(ss[0], docType) && p1 == FieldsPass(p, ss[0].fields, clean);
          assert k in p1.written - p.written;
          var j :| 0 <= j < |ss[0].fields| && ss[0].fields[j].contentField == k;
        }
      }
    }
  }

  lemma {:induction false} SanitizersPassFailure(p: Pass, docType: string, ss: seq<SanitizerDescriptor>, clean: string -> string)
    ensures SanitizersPass(p, docType, ss, clean).failed <==> (p.failed || FilterRaisesAmong(p.props, ss, docType))
    decreases |ss|
  {
    if ss != [] {
      var p1 := SanitizerStep(p, docType, ss[0], clean);
      FieldsPassEvolves(p, ss[0].fields, clean);
      SanitizersPassFailure(p1, docType, ss[1..], clean);
      forall i, j | 0 <= i < |ss[1..]| && 0 <= j < |ss[1..][i].fields|
        ensures FilterRaises(p1.props, ss[1..][i].fields[j]) <==> FilterRaises(p.props, ss[i + 1].fields[j])
      {
        NullKept(p, p1, ss[i + 1].fields[j]);
      }
      if FilterRaisesAmong(p.props, ss, docType) {
        var i, j :| 0 <= i < |ss| && Applies(ss[i], docType) && 0 <= j < |ss[i].fields| &&
                      FilterRaises(p.props, ss[i].fields[j]);
        if i > 0 {
          assert ss[1..][i - 1] == ss[i];
          assert FilterRaises(p1.props, ss[1..][i - 1].fields[j]);
        }
      }
      if FilterRaisesAmong(p1.props, ss[1..], docType) {
        var i, j :| 0 <= i < |ss[1..]| && Applies(ss[1..][i], docType) && 0 <= j < |ss[1..][i].fields| &&
                      FilterRaises(p1.props, ss[1..][i].fields[j]);
        assert ss[1..][i] == ss[i + 1];
      }
    }
  }

  /** The properties of a sanitized document: the same paths; only
      content fields of sanitizers applying to its type are written, and
      only when they held a String; null and non-String properties are
      untouched; the pass fails exactly when an applying field's filter
      property exists and either its value or the descriptor's
      filterValue is null. */
  lemma SanitizedProperties(props: Props, docType: string, ss: seq<SanitizerDescriptor>, clean: string -> string)
    ensures var q := Sanitized(props, docType, ss, clean);
      q.props.Keys == props.Keys &&
      (forall k :: k in props && q.props[k] != props[k] ==> k in q.written) &&
      (forall k :: k in props && !IsString(props[k]) ==> q.props[k] == props[k] && k !in q.written) &&
      (forall k :: k in q.written ==> k in props && IsString(props[k]) && IsString(q.props[k])) &&
      (forall k :: k in q.written ==> TargetOf(ss, docType, k))
    ensures Sanitized(props, docType, ss, clean).failed <==> FilterRaisesAmong(props, ss, docType)
  {
    var p := Pass(props, {}, false);
    SanitizersPassEvolves(p, docType, ss, clean);
    SanitizersPassTargets(p, docType, ss, clean);
    SanitizersPassFailure(p, docType, ss, clean);
    var q := SanitizersPass(p, docType, ss, clean);
    assert q.written - p.written == q.written;
  }

  lemma {:induction false} FieldsPassIdentity(p: Pass, fs: seq<FieldDescriptor>, clean: string -> string)
    requires forall v :: clean(v) == v
    ensures FieldsPass(p, fs, clean).props == p.props && FieldsPass(p, fs, clean).written == p.written
    decreases |fs|
  {
    if fs != [] {
      FieldsPassIdentity(FieldStep(p, fs[0], clean), fs[1..], clean);
    }
  }

  lemma {:induction false} SanitizersPassIdentity(p: Pass, docType: string, ss: seq<SanitizerDescriptor>, clean: string -> string)
    requires forall v :: clean(v) == v
    ensures SanitizersPass(p, docType, ss, clean).props == p.props
    ensures SanitizersPass(p, docType, ss, clean).written == p.written
    decreases |ss|
  {
    if ss != [] {
      FieldsPassIdentity(p, ss[0].fields, clean);
      SanitizersPassIdentity(SanitizerStep(p, docType, ss[0], clean), docType, ss[1..], clean);
    }
  }

  /** A failed pass stays as it is. */
  lemma {:induction false} FailedFieldsPass(p: Pass, fs: seq<FieldDescriptor>, clean: string -> string)
    requires p.failed
    ensures FieldsPass(p, fs, clean) == p
    decreases |fs|
  {
    if fs != [] {
      FailedFieldsPass(p, fs[1..], clean);
    }
  }

  lemma {:induction false} FailedSanitizersPass(p: Pass, docType: string, ss: seq<SanitizerDescriptor>, clean: string -> string)
    requires p.failed
    ensures SanitizersPass(p, docType, ss, clean) == p
    decreases |ss|
  {
    if ss != [] {
      FailedFieldsPass(p, ss[0].fields, clean);
      FailedSanitizersPass(p, docType, ss[1..], clean);
    }
  }
}
