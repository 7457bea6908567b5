# LDAP tree references and the HTML sanitizer service, in Dafny

This project models two Nuxeo components and proves properties of them.

**LDAPTreeReference** (modules `TreeSets`, `LdapNames`, `TreeReference`). This directory reference stores no links. It reads them off the LDAP tree:

- The source of a target entry is the entry named by the target's parent DN.
- The targets of a source entry are the entries found under the source's DN with the configured search scope. The three scopes are those of RFC 4511, section 4.5.1.2.
- DNs are compared in a "pseudo-normalized" form: RDNs most specific first, type and value lower-cased, commas in values escaped as `\,`, joined by `,`. This follows the string form of RFC 4514, section 2.1. The comma escape is section 2.4.
- Identifiers are collected in a `TreeSet<String>`. It is modelled as a strictly increasing sequence under lexicographic order.
- The two directories are values of type `LdapDirectory`, which bundles three things:
  - an entry lookup (`getLdapEntry`), which answers no entry, an entry with its DN, or a `NamingException`;
  - a search from base, filter and scope to the id attribute values of its hits, which may end in a `NamingException`;
  - the base filter.
- The naming library is a `NameSyntax`: it parses a DN into an `LdapName` (or signals `InvalidNameException`) and prints one `Rdn`.

**HtmlSanitizerServiceImpl** (modules `SanitizerRegistry`, `DocumentSanitizing`, `HtmlSanitizer`). The service keeps two lists, the registered AntiSamy policies and the registered sanitizer descriptors. From them it derives the effective policy and the effective sanitizers.

- The effective sanitizers obey a reference rule, `LastEnabled`: the last registration of each name wins, and it counts only if it is enabled. The in-place loop of `refreshSanitizers` is proved to compute exactly that list.
- `sanitizeDocument` is a class method. It is proved equal to a pure pass, `Sanitized`, over the document's properties. Lemmas then state which properties that pass may change.
- The AntiSamy scanner, the class loader's resources and the policy parser are parameters (`Scanner`, `ClassPath`).

Behaviour of the code worth knowing:

- The `scope` field is 0 (OBJECT) until `setScope` runs. `setScope(null)` gives ONELEVEL.
- The parent of a one-RDN DN is the empty name `""`. It is not an error.
- A DN whose comparison form does not parse again yields a null parent. The search is then issued with a null base.
- The empty name makes `remove(-1)` throw an unchecked exception (`ParentIndexFault`).
- A value ending in a backslash, in any RDN but the least specific one, is printed so that its comparison form reads back as a different name: the target `cn=a\\,dc=x` is searched for at the empty base instead of at `dc=x`.
- In the least specific RDN such a value leaves a lone `\` at the end of the comparison form (`cn=y,dc=x\\` gives `cn=y,dc=x\`), which an RFC 4514 parser rejects, so the parent is null as in the bullet on unparseable forms.
- In `sanitizeDocument` a field whose filter property exists raises a NullPointerException when either that property's value or the descriptor's `filterValue` is null.

## Model

| member | source | states |
|---|---|---|
| TreeSets.LessIrreflexive | nuxeo-platform-directory/nuxeo-platform-directory-ldap/src/main/java/org/nuxeo/ecm/directory/ldap/LDAPTreeReference.java:250 | no string is before itself in the TreeSet order |
| TreeSets.LessTransitive | nuxeo-platform-directory/nuxeo-platform-directory-ldap/src/main/java/org/nuxeo/ecm/directory/ldap/LDAPTreeReference.java:250 | the TreeSet order is transitive |
| TreeSets.LessTotal | nuxeo-platform-directory/nuxeo-platform-directory-ldap/src/main/java/org/nuxeo/ecm/directory/ldap/LDAPTreeReference.java:250 | any two different strings are ordered one way or the other |
| TreeSets.LessAsymmetric | nuxeo-platform-directory/nuxeo-platform-directory-ldap/src/main/java/org/nuxeo/ecm/directory/ldap/LDAPTreeReference.java:250 | two strings are never each before the other |
| TreeSets.Insert | nuxeo-platform-directory/nuxeo-platform-directory-ldap/src/main/java/org/nuxeo/ecm/directory/ldap/LDAPTreeReference.java:306 | TreeSet.add keeps the set strictly increasing and its elements are exactly the old ones plus the new one (a duplicate collapses) |
| TreeSets.TailMembers | nuxeo-platform-directory/nuxeo-platform-directory-ldap/src/main/java/org/nuxeo/ecm/directory/ldap/LDAPTreeReference.java:321 | in a TreeSet the elements after the first are all the others |
| TreeSets.SortedUnique | nuxeo-platform-directory/nuxeo-platform-directory-ldap/src/main/java/org/nuxeo/ecm/directory/ldap/LDAPTreeReference.java:321 | two TreeSets with the same elements give the same list |
| LdapNames.Lower | nuxeo-platform-directory/nuxeo-platform-directory-ldap/src/main/java/org/nuxeo/ecm/directory/ldap/LDAPTreeReference.java:336-338 | lower-casing keeps the length |
| LdapNames.LowerKeepsSeparator | nuxeo-platform-directory/nuxeo-platform-directory-ldap/src/main/java/org/nuxeo/ecm/directory/ldap/LDAPTreeReference.java:336-338 | lower-casing neither adds nor removes a non-letter such as `,` `=` `\` |
| LdapNames.LowerHasNoUpper | nuxeo-platform-directory/nuxeo-platform-directory-ldap/src/main/java/org/nuxeo/ecm/directory/ldap/LDAPTreeReference.java:336-338 | the lower-cased text holds no upper-case letter |
| LdapNames.LowerOfLowerCase | nuxeo-platform-directory/nuxeo-platform-directory-ldap/src/main/java/org/nuxeo/ecm/directory/ldap/LDAPTreeReference.java:336-338 | lower-casing is the identity on text without upper-case letters, so it is idempotent |
| LdapNames.EscapeNeverStartsWithComma | nuxeo-platform-directory/nuxeo-platform-directory-ldap/src/main/java/org/nuxeo/ecm/directory/ldap/LDAPTreeReference.java:336-337 | an escaped value never begins with a bare comma |
| LdapNames.UnescapeEscape | nuxeo-platform-directory/nuxeo-platform-directory-ldap/src/main/java/org/nuxeo/ecm/directory/ldap/LDAPTreeReference.java:336-337 | replacing `,` by `\,` loses nothing: unescaping gives the value back |
| LdapNames.EscapedCommasArePrefixed | nuxeo-platform-directory/nuxeo-platform-directory-ldap/src/main/java/org/nuxeo/ecm/directory/ldap/LDAPTreeReference.java:336-337 | every comma of an escaped value is preceded by a backslash |
| LdapNames.EscapeWithoutComma | nuxeo-platform-directory/nuxeo-platform-directory-ldap/src/main/java/org/nuxeo/ecm/directory/ldap/LDAPTreeReference.java:336-337 | no character but the comma is re-escaped: a comma-free value is unchanged |
| LdapNames.ComponentsOfOrder | nuxeo-platform-directory/nuxeo-platform-directory-ldap/src/main/java/org/nuxeo/ecm/directory/ldap/LDAPTreeReference.java:335-339 | inserting each RDN of getRdns() at index 0 yields one component per RDN, most specific first |
| LdapNames.PseudoNormalizeDn | nuxeo-platform-directory/nuxeo-platform-directory-ldap/src/main/java/org/nuxeo/ecm/directory/ldap/LDAPTreeReference.java:331-342 | the loop returns the comparison form of the parsed name; an unparseable DN gives the InvalidNameException |
| LdapNames.NormalFormIgnoresCaseAndExtraPairs | nuxeo-platform-directory/nuxeo-platform-directory-ldap/src/main/java/org/nuxeo/ecm/directory/ldap/LDAPTreeReference.java:336-338 | names that differ only in letter case (and in the extra pairs of multi-valued RDNs) have the same comparison form |
| LdapNames.NormalFormOfEmpty | nuxeo-platform-directory/nuxeo-platform-directory-ldap/src/main/java/org/nuxeo/ecm/directory/ldap/LDAPTreeReference.java:341 | the empty name joins to the empty string |
| LdapNames.NormalFormOfParent | nuxeo-platform-directory/nuxeo-platform-directory-ldap/src/main/java/org/nuxeo/ecm/directory/ldap/LDAPTreeReference.java:339-341 | the comparison form is the most specific RDN's component, then a comma and the parent's form, with no space |
| LdapNames.NormalFormRoundTrip | nuxeo-platform-directory/nuxeo-platform-directory-ldap/src/main/java/org/nuxeo/ecm/directory/ldap/LDAPTreeReference.java:331-342 | for non-empty names without `\` in values and `,` `=` `\` in types, the comparison form reads back into exactly one lower-cased type=value per RDN, most specific first |
| LdapNames.BackslashValuesCollide | nuxeo-platform-directory/nuxeo-platform-directory-ldap/src/main/java/org/nuxeo/ecm/directory/ldap/LDAPTreeReference.java:336-337 | without that condition two different names share a form: `cn=a\` under `dc=x` and the single value `a,dc=x` |
| LdapNames.GetParentDn | nuxeo-platform-directory/nuxeo-platform-directory-ldap/src/main/java/org/nuxeo/ecm/directory/ldap/LDAPTreeReference.java:344-360 | null or unparseable gives null; the empty name raises; one RDN gives `""`; otherwise the printed name is the most specific RDN, a comma, and the result |
| TreeReference.LDAPTreeReference.constructor | nuxeo-platform-directory/nuxeo-platform-directory-ldap/src/main/java/org/nuxeo/ecm/directory/ldap/LDAPTreeReference.java:60 | the scope field starts at 0 (OBJECT), which is a valid scope |
| TreeReference.LDAPTreeReference.GetScope | nuxeo-platform-directory/nuxeo-platform-directory-ldap/src/main/java/org/nuxeo/ecm/directory/ldap/LDAPTreeReference.java:77-79 | returns the scope field |
| TreeReference.LDAPTreeReference.SetScope | nuxeo-platform-directory/nuxeo-platform-directory-ldap/src/main/java/org/nuxeo/ecm/directory/ldap/LDAPTreeReference.java:82-95 | null sets ONELEVEL; a name the scope lookup rejects fails and leaves the scope unchanged; an accepted name sets the lookup's scope; with a lookup that answers only OBJECT, ONELEVEL or SUBTREE the scope stays one of them |
| TreeReference.FirstIdIsFirst | nuxeo-platform-directory/nuxeo-platform-directory-ldap/src/main/java/org/nuxeo/ecm/directory/ldap/LDAPTreeReference.java:213-224 | the id the break stops at is present and every hit before it had no id; none is found exactly when no hit has one |
| TreeReference.LDAPTreeReference.GetSourceIdsForTarget | nuxeo-platform-directory/nuxeo-platform-directory-ldap/src/main/java/org/nuxeo/ecm/directory/ldap/LDAPTreeReference.java:165-237 | a missing target gives `[]` with no search; a fetch fault or bad DN fails; otherwise one OBJECT-scope search of the parent DN with `(&filter)`, whose answer is the first present id alone, or a search failure, or `[]`; never more than one id |
| TreeReference.LDAPTreeReference.GetTargetIdsForSource | nuxeo-platform-directory/nuxeo-platform-directory-ldap/src/main/java/org/nuxeo/ecm/directory/ldap/LDAPTreeReference.java:248-322 | a missing source fails; otherwise one search of the source DN with the configured scope and `(&filter)`; the answer is sorted, never holds the source, and holds exactly the present ids other than the source |
| TreeReference.LDAPTreeReference.AddLinksForSource | nuxeo-platform-directory/nuxeo-platform-directory-ldap/src/main/java/org/nuxeo/ecm/directory/ldap/LDAPTreeReference.java:145-148 | changes nothing |
| TreeReference.LDAPTreeReference.AddLinksForTarget | nuxeo-platform-directory/nuxeo-platform-directory-ldap/src/main/java/org/nuxeo/ecm/directory/ldap/LDAPTreeReference.java:155-158 | changes nothing |
| TreeReference.LDAPTreeReference.RemoveLinksForSource | nuxeo-platform-directory/nuxeo-platform-directory-ldap/src/main/java/org/nuxeo/ecm/directory/ldap/LDAPTreeReference.java:368-370 | changes nothing |
| TreeReference.LDAPTreeReference.RemoveLinksForTarget | nuxeo-platform-directory/nuxeo-platform-directory-ldap/src/main/java/org/nuxeo/ecm/directory/ldap/LDAPTreeReference.java:378-380 | changes nothing |
| TreeReference.LDAPTreeReference.SetSourceIdsForTarget | nuxeo-platform-directory/nuxeo-platform-directory-ldap/src/main/java/org/nuxeo/ecm/directory/ldap/LDAPTreeReference.java:389-392 | changes nothing |
| TreeReference.LDAPTreeReference.SetTargetIdsForSource | nuxeo-platform-directory/nuxeo-platform-directory-ldap/src/main/java/org/nuxeo/ecm/directory/ldap/LDAPTreeReference.java:401-404 | changes nothing |
| TreeReference.LDAPTreeReference.Clone | nuxeo-platform-directory/nuxeo-platform-directory-ldap/src/main/java/org/nuxeo/ecm/directory/ldap/LDAPTreeReference.java:424-428 | a new reference with the same scope |
| TreeReference.LinksAreStructural | nuxeo-platform-directory/nuxeo-platform-directory-ldap/src/main/java/org/nuxeo/ecm/directory/ldap/LDAPTreeReference.java:368-404 | after all six link mutators both lookups answer exactly as before |
| TreeReference.ChildrenScenario | nuxeo-platform-directory/nuxeo-platform-directory-ldap/src/main/java/org/nuxeo/ecm/directory/ldap/LDAPTreeReference.java:296-310 | alice and bob under ou=people with ONELEVEL scope are the children of people, once each and sorted, a hit without id skipped |
| TreeReference.RootScenario | nuxeo-platform-directory/nuxeo-platform-directory-ldap/src/main/java/org/nuxeo/ecm/directory/ldap/LDAPTreeReference.java:165-237 | for the root at dc=x the one search goes to the empty base at OBJECT scope with `(&filter)`; the directory answers only at other bases, so the sources are `[]`, not an error |
| TreeReference.BackslashParentScenario | nuxeo-platform-directory/nuxeo-platform-directory-ldap/src/main/java/org/nuxeo/ecm/directory/ldap/LDAPTreeReference.java:165-237 | a target whose DN is `cn=a\\,dc=x` is searched for at the empty base, not at its parent dc=x, when the naming library reads the comparison form back as one RDN |
| LdapNames.EscapedTargetForm | nuxeo-platform-directory/nuxeo-platform-directory-ldap/src/main/java/org/nuxeo/ecm/directory/ldap/LDAPTreeReference.java:331-342 | the comparison form of `cn=a\` under `dc=x` is `cn=a\,dc=x` |
| LdapNames.BackslashParentIsEmpty | nuxeo-platform-directory/nuxeo-platform-directory-ldap/src/main/java/org/nuxeo/ecm/directory/ldap/LDAPTreeReference.java:344-360 | when the naming library reads `cn=a\\,dc=x` as that name and its comparison form `cn=a\,dc=x` as the one RDN cn=`a,dc=x`, the parent computed is the empty name `""` rather than `dc=x` |
| SanitizerRegistry.FirstIndex | nuxeo-platform-htmlsanitizer/src/main/java/org/nuxeo/ecm/platform/htmlsanitizer/HtmlSanitizerServiceImpl.java:159 | the position of the first occurrence |
| SanitizerRegistry.RemoveFirst | nuxeo-platform-htmlsanitizer/src/main/java/org/nuxeo/ecm/platform/htmlsanitizer/HtmlSanitizerServiceImpl.java:159 | List.remove(Object) drops exactly the first occurrence and keeps the rest in order; an absent element changes nothing |
| SanitizerRegistry.DropNameFirst | nuxeo-platform-htmlsanitizer/src/main/java/org/nuxeo/ecm/platform/htmlsanitizer/HtmlSanitizerServiceImpl.java:168-174 | the name search removes exactly the first entry with the name and keeps the others in order |
| SanitizerRegistry.DropAbsentName | nuxeo-platform-htmlsanitizer/src/main/java/org/nuxeo/ecm/platform/htmlsanitizer/HtmlSanitizerServiceImpl.java:168-174 | the name search removes nothing when no entry has the name |
| SanitizerRegistry.LastEnabledFromAll | nuxeo-platform-htmlsanitizer/src/main/java/org/nuxeo/ecm/platform/htmlsanitizer/HtmlSanitizerServiceImpl.java:166-178 | every effective sanitizer is enabled and registered |
| SanitizerRegistry.NameInMember | nuxeo-platform-htmlsanitizer/src/main/java/org/nuxeo/ecm/platform/htmlsanitizer/HtmlSanitizerServiceImpl.java:166-178 | a name held in a sublist is held in the list |
| SanitizerRegistry.LastEnabledUniqueNames | nuxeo-platform-htmlsanitizer/src/main/java/org/nuxeo/ecm/platform/htmlsanitizer/HtmlSanitizerServiceImpl.java:163-180 | no two effective sanitizers share a name |
| SanitizerRegistry.LastEnabledMembers | nuxeo-platform-htmlsanitizer/src/main/java/org/nuxeo/ecm/platform/htmlsanitizer/HtmlSanitizerServiceImpl.java:166-178 | a registration is effective exactly when it is enabled and no later registration has its name |
| SanitizerRegistry.LastRegistrationWins | nuxeo-platform-htmlsanitizer/src/main/java/org/nuxeo/ecm/platform/htmlsanitizer/HtmlSanitizerServiceImpl.java:166-178 | for each name the effective entry is its last registration, present exactly when that one is enabled |
| SanitizerRegistry.LastEnabledSnoc | nuxeo-platform-htmlsanitizer/src/main/java/org/nuxeo/ecm/platform/htmlsanitizer/HtmlSanitizerServiceImpl.java:168-178 | one more registration removes the same-named entry and appends itself if enabled, as one outer iteration does |
| SanitizerRegistry.LastEnabledOfEffective | nuxeo-platform-htmlsanitizer/src/main/java/org/nuxeo/ecm/platform/htmlsanitizer/HtmlSanitizerServiceImpl.java:165-180 | an enabled list with distinct names is its own effective list |
| SanitizerRegistry.LastEnabledIdempotent | nuxeo-platform-htmlsanitizer/src/main/java/org/nuxeo/ecm/platform/htmlsanitizer/HtmlSanitizerServiceImpl.java:165 | refreshing from the effective list changes nothing |
| DocumentSanitizing.EvolvesTransitive | nuxeo-platform-htmlsanitizer/src/main/java/org/nuxeo/ecm/platform/htmlsanitizer/HtmlSanitizerServiceImpl.java:194-235 | the invariant of a pass composes over successive steps |
| DocumentSanitizing.FieldStepEffect | nuxeo-platform-htmlsanitizer/src/main/java/org/nuxeo/ecm/platform/htmlsanitizer/HtmlSanitizerServiceImpl.java:199-233 | one field keeps the invariant; raises exactly when its filter property exists and either that value or the descriptor's filterValue is null, changing nothing else; writes at most its content field, only a String, with its cleaned text, and writes only when the cleaned text differs |
| DocumentSanitizing.SkipRules | nuxeo-platform-htmlsanitizer/src/main/java/org/nuxeo/ecm/platform/htmlsanitizer/HtmlSanitizerServiceImpl.java:195-213 | a sanitizer whose non-empty types lack the document type, and a field whose filter property is missing or whose filter test disagrees with doSanitize, do nothing |
| DocumentSanitizing.NullKept | nuxeo-platform-htmlsanitizer/src/main/java/org/nuxeo/ecm/platform/htmlsanitizer/HtmlSanitizerServiceImpl.java:209-210 | a pass never makes a filter property null or non-null |
| DocumentSanitizing.FieldsPassEvolves | nuxeo-platform-htmlsanitizer/src/main/java/org/nuxeo/ecm/platform/htmlsanitizer/HtmlSanitizerServiceImpl.java:199-234 | a sanitizer's fields keep the invariant, write only their content fields, and fail exactly when one of them names a filter property present in the starting properties and either its value or the field's filterValue is null |
| DocumentSanitizing.SanitizersPassEvolves | nuxeo-platform-htmlsanitizer/src/main/java/org/nuxeo/ecm/platform/htmlsanitizer/HtmlSanitizerServiceImpl.java:194-235 | visiting the sanitizers keeps the invariant |
| DocumentSanitizing.SanitizersPassTargets | nuxeo-platform-htmlsanitizer/src/main/java/org/nuxeo/ecm/platform/htmlsanitizer/HtmlSanitizerServiceImpl.java:194-233 | only content fields of sanitizers applying to the document type are written |
| DocumentSanitizing.SanitizersPassFailure | nuxeo-platform-htmlsanitizer/src/main/java/org/nuxeo/ecm/platform/htmlsanitizer/HtmlSanitizerServiceImpl.java:202-213 | the NullPointerException happens exactly when a field of an applying sanitizer has an existing filter property whose value is null or whose descriptor's filterValue is null |
| DocumentSanitizing.SanitizedProperties | nuxeo-platform-htmlsanitizer/src/main/java/org/nuxeo/ecm/platform/htmlsanitizer/HtmlSanitizerServiceImpl.java:189-236 | same paths; a changed property was written; null and non-String values are untouched; written paths held Strings and are content fields of applying sanitizers; failure exactly when an existing filter property or the descriptor's filterValue is null |
| DocumentSanitizing.FieldsPassIdentity | nuxeo-platform-htmlsanitizer/src/main/java/org/nuxeo/ecm/platform/htmlsanitizer/HtmlSanitizerServiceImpl.java:230-233 | a cleaner that changes nothing makes the fields write nothing |
| DocumentSanitizing.SanitizersPassIdentity | nuxeo-platform-htmlsanitizer/src/main/java/org/nuxeo/ecm/platform/htmlsanitizer/HtmlSanitizerServiceImpl.java:230-233 | a cleaner that changes nothing leaves every property as it was and writes nothing |
| DocumentSanitizing.FailedFieldsPass | nuxeo-platform-htmlsanitizer/src/main/java/org/nuxeo/ecm/platform/htmlsanitizer/HtmlSanitizerServiceImpl.java:209-210 | after the exception no further field is visited |
| DocumentSanitizing.FailedSanitizersPass | nuxeo-platform-htmlsanitizer/src/main/java/org/nuxeo/ecm/platform/htmlsanitizer/HtmlSanitizerServiceImpl.java:209-210 | after the exception no further sanitizer is visited |
| HtmlSanitizer.RemoveEarlierKeepsPolicy | nuxeo-platform-htmlsanitizer/src/main/java/org/nuxeo/ecm/platform/htmlsanitizer/HtmlSanitizerServiceImpl.java:123-143 | with the corrected refresh, unregistering any policy but the last leaves the effective policy as it was |
| HtmlSanitizer.RefreshPolicyAsWritten | nuxeo-platform-htmlsanitizer/src/main/java/org/nuxeo/ecm/platform/htmlsanitizer/HtmlSanitizerServiceImpl.java:128-143 | as written, every refresh of a non-empty list takes one descriptor out of it |
| HtmlSanitizer.AsWrittenForgetsPolicies | nuxeo-platform-htmlsanitizer/src/main/java/org/nuxeo/ecm/platform/htmlsanitizer/HtmlSanitizerServiceImpl.java:113-143 | as written, the list of policies stays empty after every registration, so any unregistration leaves no policy |
| HtmlSanitizer.UnregisterAsWrittenDropsPolicy | nuxeo-platform-htmlsanitizer/src/main/java/org/nuxeo/ecm/platform/htmlsanitizer/HtmlSanitizerServiceImpl.java:94-143 | register a, register b, unregister b: as written the policy is null, although with a still registered the intended policy is a's |
| HtmlSanitizer.HtmlSanitizerService.constructor | nuxeo-platform-htmlsanitizer/src/main/java/org/nuxeo/ecm/platform/htmlsanitizer/HtmlSanitizerServiceImpl.java:52-64 | empty lists, no policy, invariant established |
| HtmlSanitizer.HtmlSanitizerService.RegisterContribution | nuxeo-platform-htmlsanitizer/src/main/java/org/nuxeo/ecm/platform/htmlsanitizer/HtmlSanitizerServiceImpl.java:67-91 | the antisamy point with a policy descriptor adds a found policy; the sanitizer point with a sanitizer descriptor adds one with fields; anything else changes nothing; the invariant is kept |
| HtmlSanitizer.HtmlSanitizerService.UnregisterContribution | nuxeo-platform-htmlsanitizer/src/main/java/org/nuxeo/ecm/platform/htmlsanitizer/HtmlSanitizerServiceImpl.java:94-111 | removes the first occurrence of the descriptor from its list and refreshes; anything else changes nothing |
| HtmlSanitizer.HtmlSanitizerService.AddAntiSamy | nuxeo-platform-htmlsanitizer/src/main/java/org/nuxeo/ecm/platform/htmlsanitizer/HtmlSanitizerServiceImpl.java:113-121 | a resource not found is ignored; else the descriptor is appended and becomes the policy, or the policy is null and the refresh fails when it does not parse |
| HtmlSanitizer.HtmlSanitizerService.RemoveAntiSamy | nuxeo-platform-htmlsanitizer/src/main/java/org/nuxeo/ecm/platform/htmlsanitizer/HtmlSanitizerServiceImpl.java:123-126 | removes the descriptor; the policy is unchanged unless it was the last registered |
| HtmlSanitizer.HtmlSanitizerService.RefreshPolicy | nuxeo-platform-htmlsanitizer/src/main/java/org/nuxeo/ecm/platform/htmlsanitizer/HtmlSanitizerServiceImpl.java:128-143 | corrected: the policy of the last registration, null for none, and a failure when it does not parse; the list is kept |
| HtmlSanitizer.HtmlSanitizerService.GetPolicy | nuxeo-platform-htmlsanitizer/src/main/java/org/nuxeo/ecm/platform/htmlsanitizer/HtmlSanitizerServiceImpl.java:145-147 | the effective policy |
| HtmlSanitizer.HtmlSanitizerService.AddSanitizer | nuxeo-platform-htmlsanitizer/src/main/java/org/nuxeo/ecm/platform/htmlsanitizer/HtmlSanitizerServiceImpl.java:149-156 | a descriptor without fields leaves both lists unchanged; otherwise it is appended and the effective list recomputed |
| HtmlSanitizer.HtmlSanitizerService.RemoveSanitizer | nuxeo-platform-htmlsanitizer/src/main/java/org/nuxeo/ecm/platform/htmlsanitizer/HtmlSanitizerServiceImpl.java:158-161 | removes the descriptor; the effective list is that of the shortened list |
| HtmlSanitizer.HtmlSanitizerService.RefreshSanitizers | nuxeo-platform-htmlsanitizer/src/main/java/org/nuxeo/ecm/platform/htmlsanitizer/HtmlSanitizerServiceImpl.java:163-180 | the effective list becomes the last enabled registration of each name, a function of the registrations alone |
| HtmlSanitizer.HtmlSanitizerService.GetSanitizers | nuxeo-platform-htmlsanitizer/src/main/java/org/nuxeo/ecm/platform/htmlsanitizer/HtmlSanitizerServiceImpl.java:182-184 | the effective sanitizers |
| HtmlSanitizer.HtmlSanitizerService.SanitizeDocument | nuxeo-platform-htmlsanitizer/src/main/java/org/nuxeo/ecm/platform/htmlsanitizer/HtmlSanitizerServiceImpl.java:189-236 | with no policy nothing changes; else the properties become those of the pass, the written paths are marked dirty, and it fails exactly when the pass raised |
| HtmlSanitizer.HtmlSanitizerService.SanitizeString | nuxeo-platform-htmlsanitizer/src/main/java/org/nuxeo/ecm/platform/htmlsanitizer/HtmlSanitizerServiceImpl.java:239-256 | no policy returns the input; a string changes only into the scanner's clean HTML under the policy |
| HtmlSanitizer.RemoveSameName | nuxeo-platform-htmlsanitizer/src/main/java/org/nuxeo/ecm/platform/htmlsanitizer/HtmlSanitizerServiceImpl.java:168-174 | the iterator loop removes the first entry with the name and stops |
| HtmlSanitizer.UnregisterKeepsEarlierPolicy | nuxeo-platform-htmlsanitizer/src/main/java/org/nuxeo/ecm/platform/htmlsanitizer/HtmlSanitizerServiceImpl.java:94-143 | with the corrected refresh, registering a and b and unregistering b leaves a registered and its policy in force |

## Left out

- Sessions, `close()` in `finally`, logging and the text of exception messages: these are I/O. Errors are kept as cases of `LookupError` and as `ok` results.
- `getSourceDirectory`/`getTargetDirectory` (their `instanceof LDAPDirectoryProxy` checks), the lazy `getTargetDirectoryDescriptor` cache and `getFilterMatcher`: they hold no algorithmic content. A directory is given to each lookup as a value.
- `setFieldName`, `setTargetDirectoryName`, `toString` and `newInstance`: plain field setters and text. Clone copies `scope` only; the fields that `super.clone()` copies belong to AbstractReference, which is not part of this model.
- LdapScope is not part of this model. `getIntegerScope` is a parameter of `SetScope` (`ScopeLookup`): it answers a scope or rejects the name, and `ScopeValues` says that it answers only the three scopes.
- LdapNames.Lower: lower-cases ASCII letters only. `String.toLowerCase` is locale and Unicode aware, and that behaviour is not modelled.
- `new LdapName(dn)` and `Rdn.toString()` stay abstract (`NameSyntax`). Values are text: a binary `Rdn.getValue()` is not modelled.
- TreeSets.Less: compares characters as Unicode scalar values. `String.compareTo` compares UTF-16 code units, so the two orders differ for characters outside the Basic Multilingual Plane.
- The search returns only the id attribute value of each hit. A `NamingException` from `next()` mid-way is the same as a shorter enumeration that ends in a fault. What `dirContext.search` does with a null base is the directory's business.
- AdministrativeStatusProbe is not part of this model: it is a service lookup and HTML text.
- The AntiSamy scanner (`Scanner`) and `Policy.getInstance` (`ClassPath.parseable`) are parameters. The unclosed resource streams are not modelled.
- The `info` argument of `sanitizeString` is only logged and is left out, as are `getPathAsString`/`getId`.
- A document is a flat map from path to an optional value. Complex properties, and `ClientException`s other than PropertyNotFoundException from `getProperty`/`setValue`, are not modelled.
- The source files of HtmlSanitizerDescriptor, FieldDescriptor and HtmlSanitizerAntiSamyDescriptor are not part of this model; their fields appear as the service reads them. HtmlSanitizerDescriptor and HtmlSanitizerAntiSamyDescriptor are Dafny classes (`SanitizerDescriptor`, `AntiSamyDescriptor`) with immutable fields, so `==` on them, and with it `RemoveFirst`, is object identity. This matches `List.remove` only if the Java classes do not override `equals`, which the model assumes. FieldDescriptor is only read, never removed, and is a datatype.
- SanitizedProperties: "a written path now differs" is stated per write (`FieldStepEffect`), not for the whole pass, because a later sanitizer may write a path back to an earlier value.
- The `contributor` argument of register/unregister is unused by the code and left out.

## Findings

| source | as written | input that shows it | evidently intended | confidence | as-written member | corrected member |
|---|---|---|---|---|---|---|
| nuxeo-platform-htmlsanitizer/src/main/java/org/nuxeo/ecm/platform/htmlsanitizer/HtmlSanitizerServiceImpl.java:132 | `refreshPolicy` reads the last descriptor with `allPolicies.removeLast()`, which also removes it, so the list of registered policies is always empty after a refresh | register policies a and b, then unregister b: the effective policy becomes null although a is still registered | read the last descriptor without removing it (`getLast()`), so a's policy stays in force | not executed | HtmlSanitizer.UnregisterAsWrittenDropsPolicy | HtmlSanitizer.HtmlSanitizerService.RefreshPolicy |

The class uses the corrected refresh. `HtmlSanitizer.UnregisterKeepsEarlierPolicy` and `HtmlSanitizer.RemoveEarlierKeepsPolicy` prove the intended behaviour for it.
