/**
  HtmlSanitizerServiceImpl: the component that keeps the registered
  AntiSamy policies and HTML sanitizers, derives the effective policy and
  the effective sanitizers from them, and sanitizes documents and strings.
  The class loader's resources, AntiSamy's policy parser and its scanner
  are parameters.
 */
module HtmlSanitizer {
  import opened Wrappers
  import opened SanitizerRegistry
  import opened DocumentSanitizing

  /** The extension point names. */
  const AntisamyXp: string := "antisamy"
  const SanitizerXp: string := "sanitizer"

  /** A contributed AntiSamy policy resource; found by identity in
      allPolicies. */
  class AntiSamyDescriptor {
    const policy: string

    constructor (policy: string)
      ensures this.policy == policy
    {
      this.policy := policy;
    }
  }

  /** The policy Policy.getInstance parsed from a resource. */
  datatype Policy = Policy(resource: string)

  /** The context class loader as seen here: the resources it finds, and
      those of them that parse as AntiSamy policies. */
  datatype ClassPath = ClassPath(present: set<string>, parseable: set<string>)

  /** AntiSamy.scan under a policy: the clean HTML, or None when it throws. */
  type Scanner = (Policy, string) -> Option<string>

  /** A contribution object, by the descriptor class it is an instance of. */
  datatype Contribution =
    | AntiSamyContribution(antiSamy: AntiSamyDescriptor)
    | SanitizerContribution(sanitizer: SanitizerDescriptor)
    | OtherContribution

  /** The policy the last registration designates, if it parses. */
  function EffectivePolicy(all: seq<AntiSamyDescriptor>, classPath: ClassPath): Option<Policy> {
    if all == [] then None
    else if all[|all| - 1].policy in classPath.parseable then Some(Policy(all[|all| - 1].policy))
    else None
  }

  /** Unregistering any policy but the last registered one leaves the
      effective policy as it was. */
  lemma RemoveEarlierKeepsPolicy(all: seq<AntiSamyDescriptor>, d: AntiSamyDescriptor, classPath: ClassPath)
    requires all != [] && all[|all| - 1] != d
    ensures RemoveFirst(all, d) != []
    ensures EffectivePolicy(RemoveFirst(all, d), classPath) == EffectivePolicy(all, classPath)
  {
    if d in all {
      var i := FirstIndex(all, d);
      assert i < |all| - 1;
      var r := RemoveFirst(all, d);
      assert r[|r| - 1] == all[|all| - 1];
    }
  }

  /** sanitizeString under a non-null policy: the scanner's clean HTML, or
      the input when the scanner throws. */
  function CleanWith(scan: Scanner, policy: Policy): string -> string {
    s => match scan(policy, s) case Some(c) => c case None => s
  }

  // ----- refreshPolicy as written -----

  datatype PolicyState = PolicyState(allPolicies: seq<AntiSamyDescriptor>, policy: Option<Policy>)

  /** A policy update and whether it ended in the RuntimeException. */
  datatype Refreshed = Refreshed(state: PolicyState, thrown: bool)

  /** refreshPolicy as the code has it: removeLast() takes the last
      descriptor out of allPolicies while reading it. */
  function RefreshPolicyAsWritten(st: PolicyState, classPath: ClassPath): (r: Refreshed)
    ensures st.allPolicies != [] ==> |r.state.allPolicies| == |st.allPolicies| - 1
  {
    if st.allPolicies == [] then Refreshed(PolicyState([], None), false)
    else
      var desc := st.allPolicies[|st.allPolicies| - 1];
      var rest := st.allPolicies[..|st.allPolicies| - 1];
      if desc.policy in classPath.parseable then Refreshed(PolicyState(rest, Some(Policy(desc.policy))), false)
      else Refreshed(PolicyState(rest, None), true)
  }

  function AddAntiSamyAsWritten(st: PolicyState, d: AntiSamyDescriptor, classPath: ClassPath): Refreshed {
    if d.policy !in classPath.present then Refreshed(st, false)
    else RefreshPolicyAsWritten(st.(allPolicies := st.allPolicies + [d]), classPath)
  }

  function RemoveAntiSamyAsWritten(st: PolicyState, d: AntiSamyDescriptor, classPath: ClassPath): Refreshed {
    RefreshPolicyAsWritten(st.(allPolicies := RemoveFirst(st.allPolicies, d)), classPath)
  }

  /** As written, the list of registered policies never keeps anything:
      starting empty it stays empty, and every unregistration therefore
      leaves no policy at all. */
  lemma AsWrittenForgetsPolicies(st: PolicyState, d: AntiSamyDescriptor, classPath: ClassPath)
    requires st.allPolicies == []
    ensures AddAntiSamyAsWritten(st, d, classPath).state.allPolicies == []
    ensures RemoveAntiSamyAsWritten(st, d, classPath).state == PolicyState([], None)
  {
  }

  /** The counterexample: register a, register b, unregister b. Policy a is
      still registered, yet the effective policy is null; the corrected
      registry yields a's policy. */
  lemma UnregisterAsWrittenDropsPolicy(a: AntiSamyDescriptor, b: AntiSamyDescriptor, classPath: ClassPath)
    requires a != b
    requires a.policy in classPath.present && a.policy in classPath.parseable
    requires b.policy in classPath.present && b.policy in classPath.parseable
    ensures var s1 := AddAntiSamyAsWritten(PolicyState([], None), a, classPath).state;
            var s2 := AddAntiSamyAsWritten(s1, b, classPath).state;
            RemoveAntiSamyAsWritten(s2, b, classPath).state.policy == None
    ensures EffectivePolicy(RemoveFirst([a, b], b), classPath) == Some(Policy(a.policy))
  {
    var s1 := AddAntiSamyAsWritten(PolicyState([], None), a, classPath).state;
    AsWrittenForgetsPolicies(PolicyState([], None), a, classPath);
    AsWrittenForgetsPolicies(s1, b, classPath);
    var s2 := AddAntiSamyAsWritten(s1, b, classPath).state;
    AsWrittenForgetsPolicies(s2, b, classPath);
    assert FirstIndex([a, b], b) == 1;
    assert RemoveFirst([a, b], b) == [a];
  }

  /** A document: its type, its properties, and the paths whose setValue
      was called. */
  class Document {
    const docType: string
    var props: Props
    var dirty: set<string>

    constructor (docType: string, props: Props)
      ensures this.docType == docType && this.props == props && dirty == {}
    {
      this.docType := docType;
      this.props := props;
      dirty := {};
    }
  }

  class HtmlSanitizerService {
    const classPath: ClassPath
    /** All policies registered, and the effective policy. */
    var allPolicies: seq<AntiSamyDescriptor>
    var policy: Option<Policy>
    /** All sanitizers registered, and the effective sanitizers. */
    var allSanitizers: seq<SanitizerDescriptor>
    var sanitizers: seq<SanitizerDescriptor>

    /** Registered policies were all found; the effective policy is the
        last registered one; the effective sanitizers are the last enabled
        registration of each name. */
    ghost predicate Valid()
      reads this
    {
      (forall d :: d in allPolicies ==> d.policy in classPath.present) &&
      policy == EffectivePolicy(allPolicies, classPath) &&
      sanitizers == LastEnabled(allSanitizers)
    }

    constructor (classPath: ClassPath)
      ensures Valid() && this.classPath == classPath
      ensures allPolicies == [] && allSanitizers == [] && policy == None && sanitizers == []
    {
      this.classPath := classPath;
      allPolicies := [];
      policy := None;
      allSanitizers := [];
      sanitizers := [];
    }

    method RegisterContribution(contribution: Contribution, extensionPoint: string) returns (ok: bool)
      requires Valid()
      modifies this
      ensures Valid()
      ensures extensionPoint == AntisamyXp && contribution.AntiSamyContribution? ==>
                var d := contribution.antiSamy;
                allSanitizers == old(allSanitizers) &&
                allPolicies == (if d.policy in classPath.present then old(allPolicies) + [d] else old(allPolicies)) &&
                (ok <==> d.policy !in classPath.present || d.policy in classPath.parseable)
      ensures extensionPoint == SanitizerXp && contribution.SanitizerContribution? ==>
                var d := contribution.sanitizer;
                ok && allPolicies == old(allPolicies) &&
                allSanitizers == (if |d.fields| == 0 then old(allSanitizers) else old(allSanitizers) + [d])
      ensures !(extensionPoint == AntisamyXp && contribution.AntiSamyContribution?) &&
              !(extensionPoint == SanitizerXp && contribution.SanitizerContribution?) ==>
                ok && allPolicies == old(allPolicies) && allSanitizers == old(allSanitizers) &&
                policy == old(policy) && sanitizers == old(sanitizers)
    {
      ok := true;
      if extensionPoint == AntisamyXp {
        if !contribution.AntiSamyContribution? {
          return;
        }
        ok := AddAntiSamy(contribution.antiSamy);
      } else if extensionPoint == SanitizerXp {
        if !contribution.SanitizerContribution? {
          return;
        }
        AddSanitizer(contribution.sanitizer);
      }
    }

    method UnregisterContribution(contribution: Contribution, extensionPoint: string) returns (ok: bool)
      requires Valid()
      modifies this
      ensures Valid()
      ensures extensionPoint == AntisamyXp && contribution.AntiSamyContribution? ==>
                allSanitizers == old(allSanitizers) &&
                allPolicies == RemoveFirst(old(allPolicies), contribution.antiSamy) &&
                (ok <==> allPolicies == [] || allPolicies[|allPolicies| - 1].policy in classPath.parseable)
      ensures extensionPoint == SanitizerXp && contribution.SanitizerContribution? ==>
                ok && allPolicies == old(allPolicies) &&
                allSanitizers == RemoveFirst(old(allSanitizers), contribution.sanitizer)
      ensures !(extensionPoint == AntisamyXp && contribution.AntiSamyContribution?) &&
              !(extensionPoint == SanitizerXp && contribution.SanitizerContribution?) ==>
                ok && allPolicies == old(allPolicies) && allSanitizers == old(allSanitizers) &&
                policy == old(policy) && sanitizers == old(sanitizers)
    {
      ok := true;
      if extensionPoint == AntisamyXp {
        if !contribution.AntiSamyContribution? {
          return;
        }
        ok := RemoveAntiSamy(contribution.antiSamy);
      } else if extensionPoint == SanitizerXp {
        if !contribution.SanitizerContribution? {
          return;
        }
        RemoveSanitizer(contribution.sanitizer);
      }
    }

    /** A policy whose resource is not found is ignored; otherwise it is
        registered last and becomes the effective policy, or, when it does
        not parse, the policy is null and ok is false (the RuntimeException). */
    method AddAntiSamy(desc: AntiSamyDescriptor) returns (ok: bool)
      requires Valid()
      modifies this
      ensures Valid()
      ensures allSanitizers == old(allSanitizers) && sanitizers == old(sanitizers)
      ensures desc.policy !in classPath.present ==> ok && allPolicies == old(allPolicies) && policy == old(policy)
      ensures desc.policy in classPath.present ==>
                allPolicies == old(allPolicies) + [desc] &&
                (ok <==> desc.policy in classPath.parseable) &&
                policy == (if ok then Some(Policy(desc.policy)) else None)
    {
      if desc.policy !in classPath.present {
        return true;
      }
      allPolicies := allPolicies + [desc];
      ok := RefreshPolicy();
    }

    method RemoveAntiSamy(desc: AntiSamyDescriptor) returns (ok: bool)
      requires Valid()
      modifies this
      ensures Valid()
      ensures allSanitizers == old(allSanitizers) && sanitizers == old(sanitizers)
      ensures allPolicies == RemoveFirst(old(allPolicies), desc)
      ensures ok <==> allPolicies == [] || allPolicies[|allPolicies| - 1].policy in classPath.parseable
      ensures old(allPolicies) != [] && old(allPolicies)[|old(allPolicies)| - 1] != desc ==> policy == old(policy)
    {
      if allPolicies != [] && allPolicies[|allPolicies| - 1] != desc {
        RemoveEarlierKeepsPolicy(allPolicies, desc, classPath);
      }
      allPolicies := RemoveFirst(allPolicies, desc);
      ok := RefreshPolicy();
    }

    /** Corrected refreshPolicy: reads the last registered descriptor
        without taking it out of allPolicies. */
    method RefreshPolicy() returns (ok: bool)
      modifies this
      ensures policy == EffectivePolicy(allPolicies, classPath)
      ensures ok <==> allPolicies == [] || allPolicies[|allPolicies| - 1].policy in classPath.parseable
      ensures allPolicies == old(allPolicies)
      ensures allSanitizers == old(allSanitizers) && sanitizers == old(sanitizers)
    {
      ok := true;
      if allPolicies == [] {
        policy := None;
      } else {
        var desc := allPolicies[|allPolicies| - 1];
        if desc.policy in classPath.parseable {
          policy := Some(Policy(desc.policy));
        } else {
          policy := None;
          ok := false;
        }
      }
    }

    method GetPolicy() returns (p: Option<Policy>)
      requires Valid()
      ensures p == policy && p == EffectivePolicy(allPolicies, classPath)
    {
      p := policy;
    }

    /** A sanitizer without fields is ignored. */
    method AddSanitizer(desc: SanitizerDescriptor)
      requires Valid()
      modifies this
      ensures Valid()
      ensures allPolicies == old(allPolicies) && policy == old(policy)
      ensures allSanitizers == (if |desc.fields| == 0 then old(allSanitizers) else old(allSanitizers) + [desc])
      ensures |desc.fields| == 0 ==> sanitizers == old(sanitizers)
    {
      if |desc.fields| == 0 {
        return;
      }
      allSanitizers := allSanitizers + [desc];
      RefreshSanitizers();
    }

    method RemoveSanitizer(desc: SanitizerDescriptor)
      requires Valid()
      modifies this
      ensures Valid()
      ensures allPolicies == old(allPolicies) && policy == old(policy)
      ensures allSanitizers == RemoveFirst(old(allSanitizers), desc)
    {
      allSanitizers := RemoveFirst(allSanitizers, desc);
      RefreshSanitizers();
    }

    /** Rebuilds the effective sanitizers: for each registration in order,
        the entry with its name is removed and the registration appended
        when enabled. */
    method RefreshSanitizers()
      modifies this
      ensures sanitizers == LastEnabled(allSanitizers)
      ensures allSanitizers == old(allSanitizers)
      ensures allPolicies == old(allPolicies) && policy == old(policy)
    {
      var all := allSanitizers;
      var effective: seq<SanitizerDescriptor> := [];
      for i := 0 to |all|
        invariant allSanitizers == all && allPolicies == old(allPolicies) && policy == old(policy)
        invariant effective == LastEnabled(all[..i])
      {
        var sanitizer := all[i];
        effective := RemoveSameName(effective, sanitizer.name);
        if sanitizer.enabled {
          effective := effective + [sanitizer];
        }
        assert all[..i + 1] == all[..i] + [sanitizer];
        LastEnabledSnoc(all[..i], sanitizer);
      }
      assert all[..|all|] == all;
      sanitizers := effective;
    }

    method GetSanitizers() returns (s: seq<SanitizerDescriptor>)
      requires Valid()
      ensures s == sanitizers && s == LastEnabled(allSanitizers)
    {
      s := sanitizers;
    }

    /** With no policy the document is left alone. Otherwise, its
        properties become those of the sanitizing pass, the paths written
        are marked dirty, and ok is false when a filter test on a null
        value or a null filterValue raised the NullPointerException. */
    method SanitizeDocument(doc: Document, scan: Scanner) returns (ok: bool)
      modifies doc
      ensures policy.None? ==> ok && doc.props == old(doc.props) && doc.dirty == old(doc.dirty)
      ensures policy.Some? ==>
                var q := Sanitized(old(doc.props), doc.docType, sanitizers, CleanWith(scan, policy.value));
                doc.props == q.props && doc.dirty == old(doc.dirty) + q.written && ok == !q.failed
    {
      if policy.None? {
        return true;
      }
      var clean := CleanWith(scan, policy.value);
      ghost var final := Sanitized(doc.props, doc.docType, sanitizers, clean);
      ghost var dirty0 := doc.dirty;
      ghost var pass := Pass(doc.props, {}, false);
      for i := 0 to |sanitizers|
        invariant !pass.failed
        invariant final == SanitizersPass(pass, doc.docType, sanitizers[i..], clean)
        invariant doc.props == pass.props && doc.dirty == dirty0 + pass.written
      {
        var sanitizer := sanitizers[i];
        assert sanitizers[i..][1..] == sanitizers[i + 1..];
        if |sanitizer.types| != 0 && doc.docType !in sanitizer.types {
          continue;
        }
        for j := 0 to |sanitizer.fields|
          invariant !pass.failed
          invariant final == SanitizersPass(FieldsPass(pass, sanitizer.fields[j..], clean), doc.docType, sanitizers[i + 1..], clean)
          invariant doc.props == pass.props && doc.dirty == dirty0 + pass.written
        {
          var field := sanitizer.fields[j];
          assert sanitizer.fields[j..][1..] == sanitizer.fields[j + 1..];
          pass := FieldStep(pass, field, clean);
          var fieldName := field.contentField;
          if field.filterField.Some? {
            var filterField := field.filterField.value;
            if filterField !in doc.props {
              continue;
            }
            var filterValue := doc.props[filterField];
            if filterValue.None? || field.filterValue.None? {
              FailedFieldsPass(pass, sanitizer.fields[j + 1..], clean);
              FailedSanitizersPass(pass, doc.docType, sanitizers[i + 1..], clean);
              return false;
            }
            if (field.filterValue.value == Text(filterValue.value)) != field.doSanitize {
              continue;
            }
          }
          if fieldName !in doc.props {
            continue;
          }
          var value := doc.props[fieldName];
          if value.None? || !value.value.Str? {
            continue;
          }
          var newValue := SanitizeString(value.value.s, scan);
          if newValue != value.value.s {
            doc.props := doc.props[fieldName := Some(Str(newValue))];
            doc.dirty := doc.dirty + {fieldName};
          }
        }
      }
      ok := true;
    }

    /** The string is returned unchanged when there is no policy or the
        scanner throws; otherwise it is the scanner's clean HTML. */
    function SanitizeString(s: string, scan: Scanner): (r: string)
      reads this
      ensures policy.None? ==> r == s
      ensures policy.Some? ==> r == CleanWith(scan, policy.value)(s)
      ensures r != s ==> policy.Some? && scan(policy.value, s) == Some(r)
    {
      if policy.None? then s
      else match scan(policy.value, s)
        case Some(c) => c
        case None => s
    }
  }

  /** The inner loop of refreshSanitizers: removes, through the iterator,
      the first entry with the given name. */
  method RemoveSameName(s: seq<SanitizerDescriptor>, name: string) returns (r: seq<SanitizerDescriptor>)
    ensures r == DropName(s, name)
  {
    r := s;
    var k := 0;
    while k < |s|
      invariant 0 <= k <= |s|
      invariant r == s
      invariant forall i :: 0 <= i < k ==> s[i].name != name
    {
      if s[k].name == name {
        DropNameFirst(s, k, name);
        r := s[..k] + s[k + 1..];
        break;
      }
      k := k + 1;
    }
    if k == |s| {
      DropAbsentName(s, name);
    }
  }

  /** The corrected registry on the counterexample: after registering a and
      b and unregistering b, a's policy is in force. */
  method UnregisterKeepsEarlierPolicy(classPath: ClassPath) returns (service: HtmlSanitizerService, a: AntiSamyDescriptor)
    requires "a.xml" in classPath.present && "a.xml" in classPath.parseable
    requires "b.xml" in classPath.present && "b.xml" in classPath.parseable
    ensures service.Valid() && service.allPolicies == [a]
    ensures service.policy == Some(Policy("a.xml"))
  {
    service := new HtmlSanitizerService(classPath);
    a := new AntiSamyDescriptor("a.xml");
    var b := new AntiSamyDescriptor("b.xml");
    var ok := service.RegisterContribution(AntiSamyContribution(a), AntisamyXp);
    ok := service.RegisterContribution(AntiSamyContribution(b), AntisamyXp);
    assert service.allPolicies == [a, b];
    assert FirstIndex([a, b], b) == 1;
    ok := service.UnregisterContribution(AntiSamyContribution(b), AntisamyXp);
  }
}
