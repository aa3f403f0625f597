# kube-ldap: distinguished-name canonicaliser

kube-ldap authenticates users against an LDAP directory and issues tokens.
Its directory module exports `canonicalizeDn`. This function takes a
distinguished name such as `uid=alice,ou=people,dc=example,dc=com` and returns
the value of its leading relative distinguished name (`alice`). It throws
`invalid dn` when the leading component has no `=`.

This project models that function in Dafny and proves what it computes.

- `js_string.dfy`, module `JsString`: JavaScript's `String.prototype.split`
  for a one-character separator (`Split`), `Array.prototype.join` (`Join`)
  as its inverse, and `IndexOf`, the position of the first occurrence of a
  character.
- `ldap.dfy`, module `Ldap`: the outcome datatype `Canonical`
  (`Ok(value)` or `InvalidDn`) and `CanonicalizeDn`. The function splits the
  name on `,`, keeps the first piece and splits it on `=`. With fewer than two
  pieces it returns `InvalidDn`. Otherwise it returns the second piece. Beside
  it are reference definitions stated by position: `LeadingRdn` is the text
  before the first `,`, and `RdnValue` is the text between the first and second
  `=`. The lemmas relate the function to these definitions.

Two details of the code are kept exactly:
- The failure is a plain `Error('invalid dn')` (src/ldap/index.js:9). It is
  modelled as the single constructor `InvalidDn`.
- The value is `firstPart[1]`, which is only the text up to a second `=`. So
  `cn=a=b,dc=x` yields `a`, and `cn=,dc=x` yields the empty string rather
  than an error.

`CanonicalizeDn` reads nothing but its argument and has no effects. It is a
Dafny function, so it is deterministic by construction; no lemma is needed
for that.

## Model

| member | source | states |
|---|---|---|
| `JsString.Split` | src/ldap/index.js:7 | `split` with a one-character separator always yields at least one piece, and no piece contains the separator |
| `JsString.SplitThenJoin` | src/ldap/index.js:7 | joining the pieces of `split` with the separator gives back the original string |
| `JsString.JoinThenSplit` | src/ldap/index.js:7 | splitting a join of one or more separator-free parts recovers exactly those parts, including empty ones from leading, trailing or adjacent separators |
| `JsString.SplitNoSeparator` | src/ldap/index.js:7-8 | a string without the separator splits into the one piece `[s]`; the empty string gives `[""]` |
| `JsString.SplitAfterSeparator` | src/ldap/index.js:7 | splitting `a + sep + b`, where `a` has no separator, gives `a` followed by the pieces of `b` |
| `JsString.SplitCount` | src/ldap/index.js:7-8 | the number of pieces is one more than the number of separators |
| `JsString.SplitHead` | src/ldap/index.js:7 | piece `[0]` is the text before the first separator |
| `JsString.SplitTail` | src/ldap/index.js:7-11 | when the separator occurs, the pieces after `[0]` are the pieces of the text after the first separator, so piece `[1]` starts right after it |
| `JsString.IndexOf` | src/ldap/index.js:7 | the position of the first occurrence of a character: it holds that character, none comes before it, and the result is the length exactly when the character is absent |
| `Ldap.LeadingRdn` | src/ldap/index.js:7 | the leading component has no `,`, is a prefix of the name, and is either the whole name or followed by `,` |
| `Ldap.CanonicalizeDn` | src/ldap/index.js:6-12 | a successful value never contains `=` |
| `Ldap.CanonicalizeDnIsRdnValue` | src/ldap/index.js:6-12 | the outcome is `InvalidDn` when the leading component has no `=`, and otherwise `Ok` of the text between its first and second `=` (or up to its end) |
| `Ldap.InvalidIffNoEquals` | src/ldap/index.js:7-10 | the function fails with `invalid dn` exactly when the leading component has no `=`, and succeeds exactly when it has one; this covers the empty name |
| `Ldap.LeadingRdnDecides` | src/ldap/index.js:7 | two names with the same text before their first `,` have the same outcome |
| `Ldap.AppendComponents` | src/ldap/index.js:7 | appending `,` and any further components to a comma-free component does not change the outcome |
| `Ldap.ValueIsSubstring` | src/ldap/index.js:7-11 | a successful value is the block of the name that starts right after its first `=` and ends at the next `,` or `=` or at the end of the name; its length is at most the name's length minus one |
| `Ldap.ValueHasNoSeparators` | src/ldap/index.js:7-11 | a successful value contains neither `,` nor `=` |
| `Ldap.ValueOfRdn` | src/ldap/index.js:7-11 | a name `attr=v` followed by nothing, a `,` or a `=`, where `attr` and `v` hold no `,` or `=`, yields `v`; this covers an empty `v` and an empty `attr` |
| `Ldap.NoEqualsRejected` | src/ldap/index.js:7-10 | a name whose leading component has no `=` is rejected, whatever comes after the `,` |
| `Ldap.ExampleUserDn` | src/ldap/index.js:6-12 | `uid=alice,ou=people,dc=example,dc=com` yields `alice` |
| `Ldap.ExampleSecondEquals` | src/ldap/index.js:7-11 | `cn=a=b,dc=x` yields `a`, not `a=b` |
| `Ldap.ExampleEmptyValue` | src/ldap/index.js:8-11 | `cn=,dc=x` yields the empty string, not an error |
| `Ldap.ExampleLeadingEquals` | src/ldap/index.js:8-11 | `=x` yields `x` |
| `Ldap.ExampleInvalid` | src/ldap/index.js:7-10 | `noequalsign,dc=com` and the empty name are both rejected with `invalid dn` |

## Left out

- src/index.js: process bootstrap only. This covers logger setup, the construction of the LDAP client from configuration, the HTTP routes `/healthz`, `/auth` and `/token`, TLS certificate loading and `listen`. It is all I/O and library calls, with no logic of its own to state.
- `Client`, `Authenticator` and `Mapping`: src/ldap/index.js only re-exports them. Their implementation files are not part of this model, so the bind-search-bind authentication, attribute mapping and token handling are not modelled.
- The JavaScript `Error` object and its message text: the failure is the single constructor `InvalidDn`.
- JavaScript strings are sequences of UTF-16 code units. The model uses Dafny `char`, which is a Unicode scalar value. A JS string holding a lone surrogate therefore has no counterpart in the model, and `|dn|` in `ValueIsSubstring` counts scalar values rather than JS `.length`. Splitting behaves the same in both units, because both separators (`,` and `=`) are single ASCII characters, and the length bound holds in either unit.
- `split` is modelled only for the one-character separators the code uses. Regular-expression separators, the empty separator and the `limit` argument are not modelled.
