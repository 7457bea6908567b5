/**
  Distinguished names as LDAPTreeReference sees them: the comparison form
  built by pseudoNormalizeDn (RFC 4514, section 2.1, with the comma escape
  of section 2.4) and the parent name built by getParentDn.

  Parsing a DN string into an LdapName and printing a single Rdn are done by
  javax.naming.ldap; both stay abstract here, as the two functions of a
  NameSyntax.
 */
module LdapNames {
  import opened Wrappers

  /** One attribute type/value pair of an RDN. */
  datatype Ava = Ava(attrType: string, value: string)

  /** A relative distinguished name: one or more type/value pairs.
      Rdn.getType() and Rdn.getValue() answer for the first pair. */
  datatype Rdn = Rdn(first: Ava, rest: seq<Ava>)

  /** The RDNs of an LdapName in the order of LdapName.getRdns():
      index 0 is the rightmost, least specific RDN. */
  type LdapName = seq<Rdn>

  /** The naming library: new LdapName(dn) (None stands for
      InvalidNameException) and Rdn.toString(). */
  datatype NameSyntax = NameSyntax(parse: string -> Option<LdapName>, rdnText: Rdn -> string)

  // ----- Lower-casing (String.toLowerCase on ASCII letters) -----

  function LowerChar(c: char): char {
    if 'A' <= c <= 'Z' then (c as int + 32) as char else c
  }

  function Lower(s: string): (r: string)
    ensures |r| == |s|
  {
    if s == [] then [] else [LowerChar(s[0])] + Lower(s[1..])
  }

  /** Lower-casing neither creates nor removes a character that is not a
      letter, so separators survive it. */
  lemma {:induction false} LowerKeepsSeparator(s: string, c: char)
    requires !('A' <= c <= 'Z') && !('a' <= c <= 'z')
    ensures c in Lower(s) <==> c in s
  {
    if s != [] {
      LowerKeepsSeparator(s[1..], c);
      assert Lower(s) == [LowerChar(s[0])] + Lower(s[1..]);
      assert s == [s[0]] + s[1..];
    }
  }

  /** The lower-cased string holds no upper-case ASCII letter. */
  lemma {:induction false} LowerHasNoUpper(s: string)
    ensures forall i :: 0 <= i < |Lower(s)| ==> !('A' <= Lower(s)[i] <= 'Z')
  {
    if s != [] {
      LowerHasNoUpper(s[1..]);
      assert forall i :: 1 <= i < |Lower(s)| ==> Lower(s)[i] == Lower(s[1..])[i - 1];
    }
  }

  // ----- Comma escaping: value.replaceAll(",", "\\\\,") -----

  /** Every comma becomes a backslash followed by the comma. */
  function EscapeCommas(s: string): string {
    if s == [] then []
    else (if s[0] == ',' then ['\\', ','] else [s[0]]) + EscapeCommas(s[1..])
  }

  /** Reads the escaped form back: a backslash directly before a comma is
      dropped, everything else is kept. */
  function UnescapeCommas(t: string): string
    decreases |t|
  {
    if t == [] then []
    else if |t| >= 2 && t[0] == '\\' && t[1] == ',' then [','] + UnescapeCommas(t[2..])
    else [t[0]] + UnescapeCommas(t[1..])
  }

  lemma EscapeNeverStartsWithComma(s: string)
    ensures EscapeCommas(s) == [] || EscapeCommas(s)[0] != ','
  {
  }

  /** Escaping loses nothing: the value comes back from its escaped form,
      so no character other than the comma gained a backslash. */
  lemma {:induction false} UnescapeEscape(s: string)
    ensures UnescapeCommas(EscapeCommas(s)) == s
  {
    if s != [] {
      UnescapeEscape(s[1..]);
      var t := EscapeCommas(s);
      EscapeNeverStartsWithComma(s[1..]);
      if s[0] == ',' {
        assert t == ['\\', ','] + EscapeCommas(s[1..]);
        assert t[2..] == EscapeCommas(s[1..]);
      } else {
        assert t == [s[0]] + EscapeCommas(s[1..]);
        assert t[1..] == EscapeCommas(s[1..]);
      }
      assert s == [s[0]] + s[1..];
    }
  }

  /** Every comma of the escaped value is preceded by a backslash. */
  lemma {:induction false} EscapedCommasArePrefixed(s: string)
    ensures forall i :: 0 <= i < |EscapeCommas(s)| && EscapeCommas(s)[i] == ',' ==>
              i > 0 && EscapeCommas(s)[i - 1] == '\\'
  {
    if s != [] {
      EscapedCommasArePrefixed(s[1..]);
      EscapeNeverStartsWithComma(s[1..]);
      var h := if s[0] == ',' then ['\\', ','] else [s[0]];
      assert EscapeCommas(s) == h + EscapeCommas(s[1..]);
      forall i | 0 <= i < |EscapeCommas(s)| && EscapeCommas(s)[i] == ','
        ensures i > 0 && EscapeCommas(s)[i - 1] == '\\'
      {
        if i >= |h| {
          assert EscapeCommas(s)[i] == EscapeCommas(s[1..])[i - |h|];
          if i > |h| {
            assert EscapeCommas(s)[i - 1] == EscapeCommas(s[1..])[i - 1 - |h|];
          }
        }
      }
    }
  }

  /** A value without commas is not changed by escaping. */
  lemma {:induction false} EscapeWithoutComma(s: string)
    requires ',' !in s
    ensures EscapeCommas(s) == s
  {
    if s != [] {
      assert s[1..] == s[1..] && ',' !in s[1..] by {
        forall c | c in s[1..] ensures c in s { }
      }
      EscapeWithoutComma(s[1..]);
      assert s == [s[0]] + s[1..];
    }
  }

  // ----- Components and their joining -----

  /** The images of the RDNs, most specific first: f(name[|name| - 1]),
      ..., f(name[0]). This is the list pseudoNormalizeDn builds by
      inserting each RDN of getRdns() at index 0, and the order in which
      LdapName.toString() prints. */
  function ComponentsOf<T>(name: LdapName, f: Rdn -> T): seq<T>
    decreases |name|
  {
    if name == [] then [] else [f(name[|name| - 1])] + ComponentsOf(name[..|name| - 1], f)
  }

  lemma {:induction false} ComponentsOfOrder<T>(name: LdapName, f: Rdn -> T)
    ensures |ComponentsOf(name, f)| == |name|
    ensures forall i :: 0 <= i < |name| ==> ComponentsOf(name, f)[i] == f(name[|name| - 1 - i])
    decreases |name|
  {
    if name != [] {
      var init := name[..|name| - 1];
      ComponentsOfOrder(init, f);
      assert forall i :: 1 <= i < |name| ==> ComponentsOf(name, f)[i] == ComponentsOf(init, f)[i - 1];
    }
  }

  /** StringUtils.join(list, sep). */
  function Join(cs: seq<string>, sep: char): string
    decreases |cs|
  {
    if cs == [] then ""
    else if |cs| == 1 then cs[0]
    else cs[0] + [sep] + Join(cs[1..], sep)
  }

  // ----- pseudoNormalizeDn -----

  /** The comparison form of one RDN: type and value of its first pair,
      lower-cased, with the commas of the value escaped. */
  function NormalRdn(r: Rdn): string {
    Lower(r.first.attrType) + "=" + EscapeCommas(Lower(r.first.value))
  }

  /** The comparison form of a whole name. */
  function NormalForm(name: LdapName): string {
    Join(ComponentsOf(name, NormalRdn), ',')
  }

  /** pseudoNormalizeDn: None stands for the InvalidNameException of an
      unparseable DN. */
  method PseudoNormalizeDn(syntax: NameSyntax, dn: string) returns (r: Option<string>)
    ensures syntax.parse(dn).None? ==> r == None
    ensures syntax.parse(dn).Some? ==> r == Some(NormalForm(syntax.parse(dn).value))
  {
    var parsed := syntax.parse(dn);
    if parsed.None? {
      return None;
    }
    var name := parsed.value;
    var rdns: seq<string> := [];
    for i := 0 to |name|
      invariant rdns == ComponentsOf(name[..i], NormalRdn)
    {
      var value := EscapeCommas(Lower(name[i].first.value));
      var rdnStr := Lower(name[i].first.attrType) + "=" + value;
      assert name[..i + 1][..i] == name[..i];
      rdns := [rdnStr] + rdns;
    }
    assert name[..|name|] == name;
    return Some(Join(rdns, ','));
  }

  /** The comparison form depends only on the lower-cased first pair of
      each RDN: names that differ in letter case, or in the extra pairs of
      a multi-valued RDN, compare equal. */
  lemma {:induction false} NormalFormIgnoresCaseAndExtraPairs(a: LdapName, b: LdapName)
    requires |a| == |b|
    requires forall i :: 0 <= i < |a| ==>
               Lower(a[i].first.attrType) == Lower(b[i].first.attrType) &&
               Lower(a[i].first.value) == Lower(b[i].first.value)
    ensures NormalForm(a) == NormalForm(b)
  {
    ComponentsOfOrder(a, NormalRdn);
    ComponentsOfOrder(b, NormalRdn);
    assert ComponentsOf(a, NormalRdn) == ComponentsOf(b, NormalRdn);
  }

  /** The empty name has the empty comparison form. */
  lemma NormalFormOfEmpty()
    ensures NormalForm([]) == ""
  {
  }

  /** The comparison form of a name is that of its most specific RDN, a
      comma, and the comparison form of its parent; a one-RDN name is its
      RDN's form alone. */
  lemma NormalFormOfParent(name: LdapName)
    requires |name| >= 1
    ensures |name| == 1 ==> NormalForm(name) == NormalRdn(name[0])
    ensures |name| >= 2 ==>
      NormalForm(name) == NormalRdn(name[|name| - 1]) + "," + NormalForm(name[..|name| - 1])
  {
    var init := name[..|name| - 1];
    ComponentsOfOrder(init, NormalRdn);
  }

  // ----- Reading the comparison form back -----

  /** Reads one component: everything up to the first comma that is not
      escaped as "\,"; the rest after that comma, if there is one. */
  function TakeComponent(s: string): (r: (string, Option<string>))
    ensures r.1.Some? ==> |r.1.value| < |s|
    decreases |s|
  {
    if s == [] then ([], None)
    else if s[0] == ',' then ([], Some(s[1..]))
    else if |s| >= 2 && s[0] == '\\' && s[1] == ',' then
      var t := TakeComponent(s[2..]);
      (['\\', ','] + t.0, t.1)
    else
      var t := TakeComponent(s[1..]);
      ([s[0]] + t.0, t.1)
  }

  /** Splits a comparison form at its unescaped commas. */
  function SplitComponents(s: string): seq<string>
    decreases |s|
  {
    var t := TakeComponent(s);
    match t.1
    case None => [t.0]
    case Some(rest) => [t.0] + SplitComponents(rest)
  }

  /** Reads "type=value" back into a pair: the type is everything before
      the first '=', the value is the rest with its commas unescaped. */
  function DecodeComponent(c: string): Option<Ava>
    decreases |c|
  {
    if c == [] then None
    else if c[0] == '=' then Some(Ava([], UnescapeCommas(c[1..])))
    else match DecodeComponent(c[1..])
      case None => None
      case Some(p) => Some(Ava([c[0]] + p.attrType, p.value))
  }

  function DecodeAll(cs: seq<string>): seq<Option<Ava>> {
    if cs == [] then [] else [DecodeComponent(cs[0])] + DecodeAll(cs[1..])
  }

  /** Reads a comparison form back into its lower-cased pairs, most
      specific first. */
  function DecodeNormalForm(s: string): seq<Option<Ava>> {
    DecodeAll(SplitComponents(s))
  }

  /** The pair the comparison form keeps of an RDN. */
  function LoweredFirst(r: Rdn): Option<Ava> {
    Some(Ava(Lower(r.first.attrType), Lower(r.first.value)))
  }

  /** No bare comma, and every backslash starts an escaped comma. */
  predicate Clean(s: string)
    decreases |s|
  {
    s == [] ||
    (s[0] != ',' && s[0] != '\\' && Clean(s[1..])) ||
    (|s| >= 2 && s[0] == '\\' && s[1] == ',' && Clean(s[2..]))
  }

  lemma {:induction false} CleanConcat(a: string, b: string)
    requires Clean(a) && Clean(b)
    ensures Clean(a + b)
    decreases |a|
  {
    var ab := a + b;
    if a == [] {
      assert ab == b;
    } else if a[0] == '\\' {
      assert |a| >= 2 && a[1] == ',' && Clean(a[2..]);
      CleanConcat(a[2..], b);
      assert ab[0] == '\\' && ab[1] == ',' && ab[2..] == a[2..] + b;
    } else {
      assert a[0] != ',' && Clean(a[1..]);
      CleanConcat(a[1..], b);
      assert ab[0] == a[0] && ab[1..] == a[1..] + b;
    }
  }

  lemma {:induction false} CleanPlain(s: string)
    requires ',' !in s && '\\' !in s
    ensures Clean(s)
  {
    if s != [] {
      assert forall c :: c in s[1..] ==> c in s;
      CleanPlain(s[1..]);
    }
  }

  lemma {:induction false} CleanEscape(s: string)
    requires '\\' !in s
    ensures Clean(EscapeCommas(s))
  {
    if s != [] {
      assert forall c :: c in s[1..] ==> c in s;
      CleanEscape(s[1..]);
      var h := if s[0] == ',' then ['\\', ','] else [s[0]];
      assert Clean(h) by {
        if s[0] == ',' { assert h[2..] == []; } else { assert h[1..] == []; }
      }
      CleanConcat(h, EscapeCommas(s[1..]));
    }
  }

  lemma {:induction false} TakeClean(c: string, rest: Option<string>)
    requires Clean(c)
    ensures rest.None? ==> TakeComponent(c) == (c, None)
    ensures rest.Some? ==> TakeComponent(c + [','] + rest.value) == (c, rest)
  {
    if rest.None? {
      TakeCleanLast(c);
    } else {
      var d := [','] + rest.value;
      assert c + [','] + rest.value == c + d;
      assert d[1..] == rest.value;
      TakeCleanBefore(c, d);
    }
  }

  lemma {:induction false} TakeCleanLast(c: string)
    requires Clean(c)
    ensures TakeComponent(c) == (c, None)
    decreases |c|
  {
    if c != [] {
      if c[0] != ',' && c[0] != '\\' && Clean(c[1..]) {
        TakeCleanLast(c[1..]);
        assert c == [c[0]] + c[1..];
      } else {
        TakeCleanLast(c[2..]);
        assert c == ['\\', ','] + c[2..];
      }
    }
  }

  lemma {:induction false} TakeCleanBefore(c: string, d: string)
    requires Clean(c) && |d| >= 1 && d[0] == ','
    ensures TakeComponent(c + d) == (c, Some(d[1..]))
    decreases |c|
  {
    var s := c + d;
    if c == [] {
      assert s == d;
    } else if c[0] != ',' && c[0] != '\\' && Clean(c[1..]) {
      assert s[0] == c[0] && s[1..] == c[1..] + d;
      TakePlainStep(s);
      TakeCleanBefore(c[1..], d);
      assert c == [c[0]] + c[1..];
    } else {
      assert s[0] == '\\' && s[1] == ',' && s[2..] == c[2..] + d;
      TakeEscapeStep(s);
      TakeCleanBefore(c[2..], d);
      assert c == ['\\', ','] + c[2..];
    }
  }

  lemma TakePlainStep(s: string)
    requires s != [] && s[0] != ',' && s[0] != '\\'
    ensures TakeComponent(s) == ([s[0]] + TakeComponent(s[1..]).0, TakeComponent(s[1..]).1)
  {
  }

  lemma TakeEscapeStep(s: string)
    requires |s| >= 2 && s[0] == '\\' && s[1] == ','
    ensures TakeComponent(s) == (['\\', ','] + TakeComponent(s[2..]).0, TakeComponent(s[2..]).1)
  {
  }

  /** Splitting undoes joining when no component holds a bare comma. */
  lemma {:induction false} SplitJoin(cs: seq<string>)
    requires |cs| >= 1
    requires forall i :: 0 <= i < |cs| ==> Clean(cs[i])
    ensures SplitComponents(Join(cs, ',')) == cs
    decreases |cs|
  {
    if |cs| == 1 {
      TakeClean(cs[0], None);
    } else {
      TakeClean(cs[0], Some(Join(cs[1..], ',')));
      SplitJoin(cs[1..]);
      assert cs == [cs[0]] + cs[1..];
    }
  }

  lemma {:induction false} DecodeTyped(t: string, e: string)
    requires '=' !in t
    ensures DecodeComponent(t + "=" + e) == Some(Ava(t, UnescapeCommas(e)))
  {
    if t != [] {
      assert forall c :: c in t[1..] ==> c in t;
      DecodeTyped(t[1..], e);
      assert (t + "=" + e)[1..] == t[1..] + "=" + e;
      assert t == [t[0]] + t[1..];
    } else {
      assert ("" + "=" + e)[1..] == e;
    }
  }

  /** The RDNs whose comparison form can be read back unambiguously: the
      type holds no ',', '\' or '=', and the value no backslash. */
  predicate PlainName(name: LdapName) {
    forall i :: 0 <= i < |name| ==>
      ',' !in name[i].first.attrType && '\\' !in name[i].first.attrType &&
      '=' !in name[i].first.attrType && '\\' !in name[i].first.value
  }

  lemma PlainComponent(r: Rdn)
    requires ',' !in r.first.attrType && '\\' !in r.first.attrType
    requires '=' !in r.first.attrType && '\\' !in r.first.value
    ensures Clean(NormalRdn(r))
    ensures DecodeComponent(NormalRdn(r)) == LoweredFirst(r)
  {
    var t, v := Lower(r.first.attrType), Lower(r.first.value);
    LowerKeepsSeparator(r.first.attrType, ',');
    LowerKeepsSeparator(r.first.attrType, '\\');
    LowerKeepsSeparator(r.first.attrType, '=');
    LowerKeepsSeparator(r.first.value, '\\');
    CleanPlain(t);
    CleanEscape(v);
    assert Clean("=") by { assert "="[1..] == []; }
    CleanConcat(t, "=");
    CleanConcat(t + "=", EscapeCommas(v));
    DecodeTyped(t, EscapeCommas(v));
    UnescapeEscape(v);
  }

  /** The comparison form of a non-empty plain name holds exactly one
      "type=value" component per RDN, most specific first, each the
      lower-cased first pair of its RDN. */
  lemma {:induction false} NormalFormRoundTrip(name: LdapName)
    requires |name| >= 1 && PlainName(name)
    ensures DecodeNormalForm(NormalForm(name)) == ComponentsOf(name, LoweredFirst)
  {
    var cs := ComponentsOf(name, NormalRdn);
    ComponentsOfOrder(name, NormalRdn);
    ComponentsOfOrder(name, LoweredFirst);
    forall i | 0 <= i < |cs| ensures Clean(cs[i]) && DecodeComponent(cs[i]) == LoweredFirst(name[|name| - 1 - i]) {
      PlainComponent(name[|name| - 1 - i]);
    }
    SplitJoin(cs);
    DecodeAllAt(cs);
  }

  lemma {:induction false} DecodeAllAt(cs: seq<string>)
    ensures |DecodeAll(cs)| == |cs|
    ensures forall i :: 0 <= i < |cs| ==> DecodeAll(cs)[i] == DecodeComponent(cs[i])
  {
    if cs != [] {
      DecodeAllAt(cs[1..]);
      assert forall i :: 1 <= i < |cs| ==> DecodeAll(cs)[i] == DecodeAll(cs[1..])[i - 1];
    }
  }

  /** A string without upper-case letters is its own lower-cased form. */
  lemma {:induction false} LowerOfLowerCase(s: string)
    requires forall i :: 0 <= i < |s| ==> !('A' <= s[i] <= 'Z')
    ensures Lower(s) == s
  {
    if s != [] {
      LowerOfLowerCase(s[1..]);
      assert s == [s[0]] + s[1..];
    }
  }

  lemma ComponentDcX()
    ensures NormalRdn(Rdn(Ava("dc", "x"), [])) == "dc=x"
  {
    LowerOfLowerCase("dc");
    LowerOfLowerCase("x");
    EscapeWithoutComma("x");
  }

  lemma ComponentBackslash()
    ensures NormalRdn(Rdn(Ava("cn", "a\\"), [])) == "cn=a\\"
  {
    LowerOfLowerCase("cn");
    LowerOfLowerCase("a\\");
    EscapeWithoutComma("a\\");
  }

  lemma ComponentComma()
    ensures NormalRdn(Rdn(Ava("cn", "a,dc=x"), [])) == "cn=a\\,dc=x"
  {
    LowerOfLowerCase("cn");
    LowerOfLowerCase("a,dc=x");
    EscapedComma();
    assert "cn" + "=" + "a\\,dc=x" == "cn=a\\,dc=x";
  }

  lemma EscapedComma()
    ensures EscapeCommas("a,dc=x") == "a\\,dc=x"
  {
    assert "a,dc=x" == "a" + [','] + "dc=x";
    EscapeAround("a", "dc=x");
    assert "a" + ['\\', ','] + "dc=x" == "a\\,dc=x";
  }

  /** Escaping a single comma between two comma-free strings. */
  lemma EscapeAround(a: string, b: string)
    requires ',' !in a && ',' !in b
    ensures EscapeCommas(a + [','] + b) == a + ['\\', ','] + b
  {
    var cb := [','] + b;
    assert a + [','] + b == a + cb;
    EscapeConcat(a, cb);
    EscapeWithoutComma(a);
    assert cb[0] == ',' && cb[1..] == b;
    assert EscapeCommas(cb) == ['\\', ','] + EscapeCommas(b);
    EscapeWithoutComma(b);
    assert a + (['\\', ','] + b) == a + ['\\', ','] + b;
  }

  lemma {:induction false} EscapeConcat(a: string, b: string)
    ensures EscapeCommas(a + b) == EscapeCommas(a) + EscapeCommas(b)
  {
    if a == [] {
      assert a + b == b;
    } else {
      var h := if a[0] == ',' then ['\\', ','] else [a[0]];
      var ab := a + b;
      assert ab[0] == a[0] && ab[1..] == a[1..] + b;
      EscapeConcat(a[1..], b);
      assert EscapeCommas(ab) == h + EscapeCommas(a[1..] + b);
      assert EscapeCommas(a) == h + EscapeCommas(a[1..]);
      var x, y := EscapeCommas(a[1..]), EscapeCommas(b);
      assert h + (x + y) == (h + x) + y;
    }
  }

  /** Without the plainness condition two different names can share a
      comparison form: the value "a\" next to dc=x prints exactly like the
      single value "a,dc=x". */
  lemma BackslashValuesCollide()
    ensures NormalForm([Rdn(Ava("dc", "x"), []), Rdn(Ava("cn", "a\\"), [])]) ==
            NormalForm([Rdn(Ava("cn", "a,dc=x"), [])])
  {
    var two := [Rdn(Ava("dc", "x"), []), Rdn(Ava("cn", "a\\"), [])];
    var top := [two[0]];
    var one := [Rdn(Ava("cn", "a,dc=x"), [])];
    assert two[..1] == top;
    NormalFormOfParent(two);
    NormalFormOfParent(top);
    NormalFormOfParent(one);
    ComponentDcX();
    ComponentBackslash();
    ComponentComma();
    assert "cn=a\\" + "," + "dc=x" == "cn=a\\,dc=x";
  }

  /** The common comparison form of the two names above. */
  lemma EscapedTargetForm()
    ensures NormalForm([Rdn(Ava("dc", "x"), []), Rdn(Ava("cn", "a\\"), [])]) == "cn=a\\,dc=x"
  {
    BackslashValuesCollide();
    NormalFormOfParent([Rdn(Ava("cn", "a,dc=x"), [])]);
    ComponentComma();
  }

  // ----- getParentDn -----

  /** What getParentDn returns: null, a DN string, or the unchecked
      IndexOutOfBoundsException that remove(-1) raises on the empty name. */
  datatype ParentDn = NullDn | Parent(dn: string) | EmptyNameFault

  /** LdapName.toString(): the RDNs printed most specific first, joined
      by commas. */
  function NameToString(syntax: NameSyntax, name: LdapName): string {
    Join(ComponentsOf(name, syntax.rdnText), ',')
  }

  /** getParentDn: drops the leftmost, most specific RDN and prints the
      rest. */
  function GetParentDn(syntax: NameSyntax, dn: Option<string>): (r: ParentDn)
    ensures dn.None? ==> r == NullDn
    ensures dn.Some? && syntax.parse(dn.value).None? ==> r == NullDn
    ensures dn.Some? && syntax.parse(dn.value) == Some([]) ==> r == EmptyNameFault
    ensures dn.Some? && syntax.parse(dn.value).Some? && |syntax.parse(dn.value).value| == 1 ==>
              r == Parent("")
    ensures dn.Some? && syntax.parse(dn.value).Some? && |syntax.parse(dn.value).value| >= 2 ==>
              r.Parent? &&
              NameToString(syntax, syntax.parse(dn.value).value) ==
                syntax.rdnText(syntax.parse(dn.value).value[|syntax.parse(dn.value).value| - 1]) + "," + r.dn
  {
    if dn.None? then NullDn
    else match syntax.parse(dn.value)
      case None => NullDn
      case Some(name) =>
        if |name| == 0 then EmptyNameFault
        else
          var parent := name[..|name| - 1];
          ComponentsOfOrder(parent, syntax.rdnText);
          Parent(NameToString(syntax, parent))
  }

  /** cn=a\\,dc=x in the string form of RFC 4514, section 2.4: the RDN
      value a\ under dc=x. */
  const EscapedDn: string := "cn=a\\\\,dc=x"

  /** Its comparison form, which is also that of cn="a,dc=x". */
  const EscapedForm: string := "cn=a\\,dc=x"

  /** dc=x above cn="a\" (index 0 is the rightmost RDN). */
  const BackslashName: LdapName := [Rdn(Ava("dc", "x"), []), Rdn(Ava("cn", "a\\"), [])]

  /** The single RDN cn="a,dc=x". */
  const CommaName: LdapName := [Rdn(Ava("cn", "a,dc=x"), [])]

  /** A naming library that reads EscapedDn as BackslashName and
      EscapedForm as CommaName, as RFC 4514 prescribes. */
  predicate ReadsEscapes(syntax: NameSyntax) {
    syntax.parse(EscapedDn) == Some(BackslashName) && syntax.parse(EscapedForm) == Some(CommaName)
  }

  /** The parent of the comparison form of EscapedDn is the empty name,
      not dc=x. */
  lemma BackslashParentIsEmpty(syntax: NameSyntax)
    requires ReadsEscapes(syntax)
    ensures NormalForm(syntax.parse(EscapedDn).value) == EscapedForm
    ensures GetParentDn(syntax, Some(EscapedForm)) == Parent("")
  {
    EscapedTargetForm();
  }
}
