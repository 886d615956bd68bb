# with_os_specific lookup: a Dafny model of `flatten`

This project models `flatten`, the whole logic of an Ansible lookup plugin
(`with_os_specific`). The plugin picks the value that suits a host's operating
system. It works in two steps:

1. It builds the host's **candidate keys** from five facts, most specific
   first: `<distribution>-<version>`, `<distribution>-<major version>`,
   `<distribution>-<release>`, `<distribution>`, `<os family>`. An empty fact
   gives no key. None of the distribution keys exists unless the
   distribution is known.
2. It **resolves each term** in order. A string is copied to the output. A
   dictionary gives the value at the first candidate key it holds. If it
   holds none, it gives its `"default"` entry, or nothing when it has no
   such entry. Any other term gives nothing.

Everything lives in `os_specific.dfy`, in module `OsSpecific`:

- `Facts` holds the five facts. The empty string stands for a falsy fact.
- `Value<O>` stands for a Python value: `Str`, `Dict` (string keys), or
  `Other` (any other object, kept opaque). Terms and dictionary entries are
  both `Value`s, so a string-only term list can come back *equal* to the
  input.
- The specification is written as functions:
  - `CandidateKeys` (built on `DashedKeys`);
  - `FirstMatch`, the earliest candidate key the dictionary holds;
  - `Resolve`, one term's result;
  - `ResolveAll`, the whole output.
- The source's step-by-step code is written as methods. `BuildKeys` makes
  the conditional appends. `Flatten` has the outer `for` loop over the terms
  and the inner loop over the keys, with `break` and a `matched` flag that
  plays the part of Python's `for … else`. Both methods are proved to compute
  the specification functions.

`flatten` never changes `facts` or the input terms. In the model both are
immutable values, so this holds by construction.

## Model

| member | source | states |
|---|---|---|
| `OsSpecific.DashedKeys` | os_specific.py:8-13 | there is at most one dashed distribution key per version-like fact |
| `OsSpecific.CandidateKeys` | os_specific.py:5-17 | the candidate key list has at most 5 entries and none of them is empty |
| `OsSpecific.BuildKeys` | os_specific.py:5-17 | the source's conditional appends build exactly `CandidateKeys(facts)` |
| `OsSpecific.DashedKeysSound` | os_specific.py:8-13 | every dashed key is the distribution, `-`, and a non-empty suffix taken from the version-like facts |
| `OsSpecific.DashedKeysComplete` | os_specific.py:8-13 | every non-empty version-like fact yields its dashed key |
| `OsSpecific.DashedKeysOfVersions` | os_specific.py:8-13 | dashed keys come in the fixed order version, major version, release, and each is present only when its fact is non-empty |
| `OsSpecific.CandidateKeysFull` | os_specific.py:7-17 | with all five facts known, the keys are exactly `[dist-version, dist-major, dist-release, dist, os_family]` in that order |
| `OsSpecific.CandidateKeysWithoutDistribution` | os_specific.py:7-17 | with no distribution, the keys are `[os_family]` if the family is known, else `[]` |
| `OsSpecific.CandidateKeysMembers` | os_specific.py:7-17 | the bare distribution is a key whenever it is known, and so is the OS family; every known version-like fact gives `dist-fact`; every key is one of these |
| `OsSpecific.FirstMatch` | os_specific.py:24-27 | the result is the earliest key position the dictionary holds; there is none exactly when the dictionary holds no candidate key |
| `OsSpecific.Resolve` | os_specific.py:20-30 | one term's contribution: a string resolves to itself and any other non-dictionary term to nothing (its own contract); for a dictionary, the value at the earliest candidate key it holds, else its `"default"` entry, else nothing (stated by `ResolveEarliest`, `ResolveFallback`, `ResolveDictDefined` and `ResolveDictSource`) |
| `OsSpecific.ResolveString` | os_specific.py:21-22 | a string term resolves to itself, whatever the keys |
| `OsSpecific.ResolveOther` | os_specific.py:20-23 | a term that is neither a string nor a dictionary contributes nothing |
| `OsSpecific.ResolveEarliest` | os_specific.py:24-27 | a dictionary resolves to its value at the earliest candidate key it holds; later matches and `"default"` are ignored |
| `OsSpecific.ResolveFallback` | os_specific.py:28-30 | a dictionary holding no candidate key resolves to its `"default"` entry when present, otherwise to nothing |
| `OsSpecific.ResolveDictDefined` | os_specific.py:23-30 | a dictionary contributes a value exactly when it holds some candidate key or `"default"` |
| `OsSpecific.ResolveDictSource` | os_specific.py:24-30 | what a dictionary resolves to is always its own entry under a candidate key or under `"default"` |
| `OsSpecific.Contribution` | os_specific.py:20-30 | each term contributes at most one output entry |
| `OsSpecific.ResolveAll` | os_specific.py:19-31 | the output is no longer than the term list |
| `OsSpecific.ResolveAllAppend` | os_specific.py:20-31 | resolving a concatenation of term lists concatenates their outputs (terms are resolved independently, in order) |
| `OsSpecific.ResolveAllStrings` | os_specific.py:20-22 | a term list made only of strings comes back identical |
| `OsSpecific.ResolveAllTotal` | os_specific.py:19-31 | when every term resolves, output entry i is what term i resolves to and lengths are equal |
| `OsSpecific.ResolveAllSubsequence` | os_specific.py:19-31 | the output is exactly the subsequence of resolved terms, in input order: output entry k is what the term at position k resolves to, the positions strictly increase, and a term has a position exactly when it resolves |
| `OsSpecific.Flatten` | os_specific.py:4-31 | the loop with its `break` and `for … else` fallback returns `ResolveAll(CandidateKeys(facts), terms)` |
| `OsSpecific.ExampleExactVersion` | os_specific.py:24-27 | with Ubuntu 20.04, `{"Ubuntu-20.04": a, "Ubuntu": b, "default": c}` yields `[a]` |
| `OsSpecific.ExampleDistributionOnly` | os_specific.py:24-27 | with Ubuntu 21.10, the same dictionary yields `[b]` |
| `OsSpecific.ExampleDefault` | os_specific.py:28-30 | with Fedora/RedHat, `{"default": z}` yields `[z]` |
| `OsSpecific.ExampleDropped` | os_specific.py:28-31 | with Fedora, `["t", {"CentOS": x}]` yields `["t"]`: the unmatched dictionary is dropped |

## Left out

- `LookupModule` (os_specific.py:33-44) is a thin wrapper and is not modelled. It normalises the terms with `utils.listify_lookup_plugin_terms`, an Ansible library call that is not part of this model. It raises `AnsibleError` when the result is not a list, and it passes the injected variables as the facts.
- The Ansible imports (os_specific.py:1-2) and the gathering of facts are not modelled. The facts are an input.
- A fact key missing from `facts` makes the source raise `KeyError` (os_specific.py:7-16). The model's `Facts` record always has all five fields, so this failure cannot happen in the model. A fact that is present but falsy (empty or `None`) is the empty string.
- Python's run-time type tests are replaced by the `Value` datatype. Under Python 2, `isinstance(term, str)` is false for `unicode` strings, so such a term would be dropped. The model treats every text term as `Str`.
- Dictionaries with non-string keys are not modelled: `Dict` has string keys. Candidate keys and `"default"` are strings, so other keys could never match anyway.
- Object identity and aliasing are not modelled. The Python result holds references to the dictionary values, not copies. The model works on values.
