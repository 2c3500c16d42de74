# IRI node of NxParser, in Dafny

This project models `org.semanticweb.yars.nx.Resource`, the IRI node of the
NxParser RDF model. A Resource is an immutable value holding one string, its
N-Triples IRI token (section 2.2 of the W3C RDF 1.1 N-Triples recommendation),
brackets included. Everything else is computed from that string:

- construction, on two paths: the bare-IRI path (empty input, input without
  brackets, input that already starts with `<`) and the N-Triples path, which
  stores the token verbatim;
- the label (`getLabel` / `getUriString`), which strips one character from
  each end of the token and unescapes the rest;
- identity: `equals`, `hashCode` and `compareTo`, all over the token.

Modules:

- `Wrappers` (wrappers.dfy): `Option` and `Result`; a `Result` error stands
  for an exception.
- `JavaString` (java_string.dfy): the sign of `String.compareTo` as a
  recursive function, an independent definition of the lexicographic order,
  and the lemmas that it is a total order. Also Java's `int`.
- `NxUtil` (nx_util.dfy): the escaper `NxUtil.escapeIRI` and unescaper
  `NxUtil.unescape`. Their code is not part of this model, so they are the two
  fields of a `Codec` value passed to every operation that needs them. Any law
  tying them together appears only as a lemma hypothesis.
- `Nx` (resource.dfy): the `Resource` datatype, the `Node` it meets in
  `equals` and `compareTo` (another Resource, or any other object seen only
  through its `toString` string), the operations, and their properties.

The model follows the code wherever it is more permissive than the class's
documentation suggests. The token is bracketed for the empty input and for a
bare IRI not starting with `<` (`Nx.BareIriIsBracketed`). It need not be
bracketed on the other two paths. The N-Triples path checks nothing. The
bare-IRI path given an input that starts with `<` stores `escapeIRI(iri)`
without adding brackets. On both paths a token shorter than two characters
makes `getLabel` throw (`Nx.BracketedInputBreaksBracketing`,
`Nx.NTriplesShortTokenLabelFails`). That second path's behaviour is kept
exactly as written.

## Model

| member | source | states |
|---|---|---|
| `Nx.EmptyIri` | nxparser-model/src/main/java/org/semanticweb/yars/nx/Resource.java:47-51 | the empty bare IRI is stored as `<>`, its label is `""`, and a FINE "Empty string not allowed." notice is logged |
| `Nx.BareIriIsBracketed` | nxparser-model/src/main/java/org/semanticweb/yars/nx/Resource.java:52-53 | a non-empty bare IRI not starting with `<` gives a token that starts with `<`, ends with `>`, has length at least 2 and holds exactly `escapeIRI(iri)` in between; nothing is logged |
| `Nx.BracketedInputNotRewrapped` | nxparser-model/src/main/java/org/semanticweb/yars/nx/Resource.java:54-59 | a bare IRI starting with `<` is stored as `escapeIRI(iri)` with no brackets added, and a WARNING carrying the input is logged |
| `Nx.BracketedInputBreaksBracketing` | nxparser-model/src/main/java/org/semanticweb/yars/nx/Resource.java:54-59 | on that path the token need not be bracketed: with a codec that escapes nothing, `<a` is stored unbracketed, `<` gives a node whose label throws, and `<a>` has label `a`, not `<a>` |
| `Nx.NTriplesVerbatim` | nxparser-model/src/main/java/org/semanticweb/yars/nx/Resource.java:61-62 | the N-Triples path stores the token verbatim whatever the codec, logs nothing, and `toString` returns it unchanged |
| `Nx.NTriplesShortTokenLabelFails` | nxparser-model/src/main/java/org/semanticweb/yars/nx/Resource.java:86-90 | an N-Triples token shorter than two characters is accepted, and the label of that node throws StringIndexOutOfBounds |
| `Nx.Label` | nxparser-model/src/main/java/org/semanticweb/yars/nx/Resource.java:86-98 | `getLabel` (=`getUriString`) throws exactly when the token is shorter than two characters; it is `""` for `<>`; it never throws for a bracketed token |
| `Nx.LabelStripsOneCharEachSide` | nxparser-model/src/main/java/org/semanticweb/yars/nx/Resource.java:87-89 | for every token other than `<>` of at least two characters, the label is `unescape` of the token without its first and last character, whatever those characters are |
| `Nx.NTriplesLabel` | nxparser-model/src/main/java/org/semanticweb/yars/nx/Resource.java:87-89 | an N-Triples token `<m>` with non-empty `m` has label `unescape(m)` |
| `Nx.LabelRoundTrip` | nxparser-model/src/main/java/org/semanticweb/yars/nx/Resource.java:80-90 | if `unescape(escapeIRI(s)) == s` and `unescape("") == ""`, then the label of the node built from any non-empty bare IRI `s` not starting with `<` is `s` |
| `Nx.FromIriInjective` | nxparser-model/src/main/java/org/semanticweb/yars/nx/Resource.java:52-53 | under the same hypotheses, two such bare IRIs give equal nodes if and only if they are the same string |
| `Nx.Equals` | nxparser-model/src/main/java/org/semanticweb/yars/nx/Resource.java:122-129 | `equals(o)` holds exactly when `o` is a Resource with the same token |
| `Nx.EqualsIsEquivalence` | nxparser-model/src/main/java/org/semanticweb/yars/nx/Resource.java:123-128 | `equals` is reflexive, symmetric and transitive on Resources |
| `Nx.EqualsIffSameToken` | nxparser-model/src/main/java/org/semanticweb/yars/nx/Resource.java:128 | two Resources are equal if and only if their tokens are the same string |
| `Nx.EqualsOnlyResources` | nxparser-model/src/main/java/org/semanticweb/yars/nx/Resource.java:128 | a Resource never equals an object of another kind, even one whose text is its token |
| `Nx.HashConsistentWithEquals` | nxparser-model/src/main/java/org/semanticweb/yars/nx/Resource.java:113-116 | equal Resources have equal hash codes, for any string hash function |
| `Nx.SameIriSameNode` | nxparser-model/src/main/java/org/semanticweb/yars/nx/Resource.java:113-134 | two nodes built from the same bare IRI are equal, hash alike and compare as zero |
| `Nx.CompareToZeroIff` | nxparser-model/src/main/java/org/semanticweb/yars/nx/Resource.java:131-134 | `compareTo` is zero if and only if the two `toString` strings are equal |
| `Nx.CompareToConsistentWithEquals` | nxparser-model/src/main/java/org/semanticweb/yars/nx/Resource.java:122-134 | between two Resources, `compareTo` is zero if and only if `equals` holds |
| `Nx.CompareToInconsistentAcrossKinds` | nxparser-model/src/main/java/org/semanticweb/yars/nx/Resource.java:122-134 | a node of another kind whose text is the Resource's token compares as zero but is not equal |
| `Nx.CompareToIsLexicographic` | nxparser-model/src/main/java/org/semanticweb/yars/nx/Resource.java:131-134 | `compareTo` is negative if and only if the token sorts before the other node's text in the lexicographic order |
| `Nx.CompareToAntisymmetric` | nxparser-model/src/main/java/org/semanticweb/yars/nx/Resource.java:131-134 | swapping two Resources flips the sign of `compareTo` |
| `Nx.CompareToTransitive` | nxparser-model/src/main/java/org/semanticweb/yars/nx/Resource.java:131-134 | if `a < b` and `b < n` then `a < n`, for Resources `a`, `b` and any node `n` |
| `Nx.CompareToPrefixFirst` | nxparser-model/src/main/java/org/semanticweb/yars/nx/Resource.java:131-134 | a Resource whose token is a proper prefix of the other node's text sorts first |
| `JavaString.Compare` | nxparser-model/src/main/java/org/semanticweb/yars/nx/Resource.java:133 | the sign of `String.compareTo` is zero exactly when the two strings are equal |
| `JavaString.CompareLessIsLexLess` | nxparser-model/src/main/java/org/semanticweb/yars/nx/Resource.java:133 | `compareTo` is negative exactly when the strings first differ at an index where the left character is smaller, or the left string is a proper prefix of the right one |
| `JavaString.CompareAntisymmetric` | nxparser-model/src/main/java/org/semanticweb/yars/nx/Resource.java:133 | swapping the arguments of `compareTo` flips its sign |
| `JavaString.CompareLessTransitive` | nxparser-model/src/main/java/org/semanticweb/yars/nx/Resource.java:133 | the "less" result of `compareTo` is transitive |
| `JavaString.PrefixSortsFirst` | nxparser-model/src/main/java/org/semanticweb/yars/nx/Resource.java:133 | a proper prefix compares as less |
| `JavaString.CompareIsTotalOrder` | nxparser-model/src/main/java/org/semanticweb/yars/nx/Resource.java:133 | "`compareTo` is not positive" is reflexive, antisymmetric, transitive and total |

## Left out

- `toURI`: it delegates to `java.net.URI` parsing, a library whose behaviour is not part of this model.
- Logging: `Logger` calls are process-wide side effects. `Nx.ConstructionLog` returns the record the constructor would log, and construction does not depend on it.
- `Serializable` and `serialVersionUID`: Java serialization plumbing.
- The bodies of `NxUtil.escapeIRI` and `NxUtil.unescape`: that file is not part of this model. Both are parameters with no properties assumed, and neither can fail here. An error that `unescape` might raise on a malformed escape is not modelled.
- Java `null`: strings are never null here. On the bare-IRI path `null` behaves exactly like `""`, which is modelled. A `null` token on the N-Triples path is not modelled.
- `equalsIgnoreCase("<>")` in getUriString is modelled as plain equality, since neither `<` nor `>` has a case variant.
- `Nx.HashCode`: `String.hashCode`'s formula is not modelled. The string hash is a parameter, so only the consistency of `hashCode` with `equals` is stated.
- `JavaString.Compare`: only the sign of `compareTo` is modelled, not its exact numeric value.
- Characters: a Java `char` is a UTF-16 code unit. Here a `char` stands for one unit, so surrogate code units, and the code-unit order of strings with supplementary characters, are not modelled.
- Other node kinds (blank nodes, literals, variables) are not modelled beyond their `toString` string.
