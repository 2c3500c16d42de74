/**
 * The IRI node org.semanticweb.yars.nx.Resource: an immutable value holding
 * one string, its N-Triples IRI token (section 2.2 of the W3C RDF 1.1
 * N-Triples recommendation), brackets included, from which its label,
 * equality, hash and order are all computed.
 */
module Nx {
  import opened Wrappers
  import opened JavaString
  import opened NxUtil

  /** An IRI node; `data` is its N-Triples token, such as "<http://example.org/x>". */
  datatype Resource = Resource(data: string)

  /**
   * Whatever a Resource is compared with or passed to equals:
   * another Resource, or an object of another kind (blank node, literal,
   * variable, or any other object), seen only through its toString string.
   */
  datatype Node = IriNode(resource: Resource) | OtherNode(text: string)

  /** The exception getLabel can throw: String.substring with bounds out of range. */
  datatype LabelError = StringIndexOutOfBounds

  /** The token stored for the empty bare IRI. */
  const EmptyToken: string := "<>"

  /** A token of the form `<...>`: at least two characters, bracketed. */
  predicate Bracketed(t: string) {
    |t| >= 2 && t[0] == '<' && t[|t| - 1] == '>'
  }

  // ---------------------------------------------------------------------
  // Construction

  /**
   * `new Resource(iri, isNTriples)`. On the bare-IRI path an empty input
   * becomes "<>", an input not starting with '<' is escaped and bracketed,
   * and an input already starting with '<' is escaped and NOT bracketed
   * again. On the N-Triples path the token is stored as given.
   */
  function Construct(iri: string, isNTriples: bool, codec: Codec): Resource {
    if !isNTriples then
      if |iri| == 0 then Resource(EmptyToken)
      else if iri[0] != '<' then Resource("<" + codec.escapeIri(iri) + ">")
      else Resource(codec.escapeIri(iri))
    else Resource(iri)
  }

  /** `new Resource(iri)`: the bare-IRI path. */
  function FromIri(iri: string, codec: Codec): Resource {
    Construct(iri, false, codec)
  }

  /** `new Resource(token, true)`: the N-Triples path, which needs no codec. */
  function FromNTriples(token: string): Resource {
    Construct(token, true, Identity())
  }

  /** Java log levels the constructor uses. */
  datatype Level = Fine | Warning

  /** One call of Logger.log: level, message pattern and its parameters. */
  datatype LogRecord = LogRecord(level: Level, message: string, params: seq<string>)

  const EmptyIriMessage: string := "Empty string not allowed."
  const BracketedIriMessage: string :=
    "Bare and valid IRI expected, was supplied something with brackets <>: {0}"

  /** The diagnostic the constructor logs, if any; it does not affect the node. */
  function ConstructionLog(iri: string, isNTriples: bool): Option<LogRecord> {
    if isNTriples then None
    else if |iri| == 0 then Some(LogRecord(Fine, EmptyIriMessage, []))
    else if iri[0] != '<' then None
    else Some(LogRecord(Warning, BracketedIriMessage, [iri]))
  }

  // ---------------------------------------------------------------------
  // Node capability

  /** `toString()` of a Resource: its token, unchanged. */
  function ToString(r: Resource): string {
    r.data
  }

  /** `toString()` of any node. */
  function Text(n: Node): string {
    match n
    case IriNode(r) => ToString(r)
    case OtherNode(t) => t
  }

  /**
   * `getLabel()`, equal to the deprecated `getUriString()`: "" for the token
   * "<>"; otherwise the token without its first and last character,
   * unescaped. `substring(1, length - 1)` throws for a token shorter than
   * two characters.
   */
  function Label(r: Resource, codec: Codec): (res: Result<string, LabelError>)
    ensures res.Err? <==> |r.data| < 2
    ensures r.data == EmptyToken ==> res == Ok("")
    ensures Bracketed(r.data) ==> res.Ok?
  {
    if r.data == EmptyToken then Ok("")
    else if |r.data| < 2 then Err(StringIndexOutOfBounds)
    else Ok(codec.unescape(r.data[1..|r.data| - 1]))
  }

  /** `hashCode()`: String.hashCode of the token, passed in as `stringHash`. */
  function HashCode(r: Resource, stringHash: string -> Int32): Int32 {
    stringHash(r.data)
  }

  /**
   * `equals(o)`: o is a Resource with the same token (the `o == this`
   * shortcut gives the same answer on values).
   */
  function Equals(r: Resource, o: Node): (b: bool)
    ensures b <==> o == IriNode(r)
  {
    o.IriNode? && o.resource.data == r.data
  }

  /** Sign of `compareTo(n)`: the order of the two toString strings. */
  function CompareTo(r: Resource, n: Node): Ordering {
    Compare(ToString(r), Text(n))
  }

  // ---------------------------------------------------------------------
  // Construction properties

  /** The empty bare IRI becomes "<>", whose label is "", with a FINE notice. */
  lemma EmptyIri(codec: Codec)
    ensures FromIri("", codec).data == EmptyToken
    ensures Label(FromIri("", codec), codec) == Ok("")
    ensures ConstructionLog("", false) == Some(LogRecord(Fine, EmptyIriMessage, []))
  {
  }

  /**
   * A non-empty bare IRI not starting with '<' becomes its escaping between
   * one '<' and one '>', silently; the token is therefore bracketed.
   */
  lemma BareIriIsBracketed(iri: string, codec: Codec)
    requires |iri| > 0 && iri[0] != '<'
    ensures var t := FromIri(iri, codec).data;
      && Bracketed(t)
      && t[1..|t| - 1] == codec.escapeIri(iri)
    ensures ConstructionLog(iri, false) == None
  {
  }

  /**
   * A bare IRI that already starts with '<' is stored as its escaping, with
   * no brackets added, and a WARNING is logged carrying the input.
   */
  lemma BracketedInputNotRewrapped(iri: string, codec: Codec)
    requires |iri| > 0 && iri[0] == '<'
    ensures FromIri(iri, codec).data == codec.escapeIri(iri)
    ensures ConstructionLog(iri, false) == Some(LogRecord(Warning, BracketedIriMessage, [iri]))
  {
  }

  /**
   * On that path the stored token need not be bracketed, and its label can
   * fail: with a codec that escapes nothing, "<a" is stored as "<a", and "<"
   * as "<", whose getLabel throws.
   */
  lemma BracketedInputBreaksBracketing()
    ensures !Bracketed(FromIri("<a", Identity()).data)
    ensures Label(FromIri("<", Identity()), Identity()) == Err(StringIndexOutOfBounds)
    ensures Label(FromIri("<a>", Identity()), Identity()) == Ok("a")
  {
    assert FromIri("<a>", Identity()).data[1..2] == "a";
  }

  /** The N-Triples path stores the token verbatim and logs nothing; toString returns it. */
  lemma NTriplesVerbatim(token: string, codec: Codec)
    ensures Construct(token, true, codec) == FromNTriples(token)
    ensures ToString(FromNTriples(token)) == token
    ensures ConstructionLog(token, true) == None
  {
  }

  /** The N-Triples path checks nothing: a token of under two characters yields a node whose getLabel throws. */
  lemma NTriplesShortTokenLabelFails(token: string, codec: Codec)
    requires |token| < 2
    ensures Label(FromNTriples(token), codec) == Err(StringIndexOutOfBounds)
  {
  }

  // ---------------------------------------------------------------------
  // Label properties

  /**
   * For any token other than "<>" of two or more characters, the label is
   * the unescaping of what lies between its first and last character,
   * whatever those two characters are.
   */
  lemma LabelStripsOneCharEachSide(first: char, middle: string, last: char, codec: Codec)
    requires [first] + middle + [last] != EmptyToken
    ensures Label(Resource([first] + middle + [last]), codec) == Ok(codec.unescape(middle))
  {
  }

  /** An N-Triples token "<m>" other than "<>" has label unescape(m). */
  lemma NTriplesLabel(middle: string, codec: Codec)
    requires |middle| > 0
    ensures Label(FromNTriples("<" + middle + ">"), codec) == Ok(codec.unescape(middle))
  {
  }

  /**
   * Round trip: when unescaping undoes escaping on s and maps "" to "",
   * every non-empty bare IRI s not starting with '<' is recovered by getLabel.
   */
  lemma LabelRoundTrip(s: string, codec: Codec)
    requires |s| > 0 && s[0] != '<'
    requires codec.unescape(codec.escapeIri(s)) == s
    requires codec.unescape("") == ""
    ensures Label(FromIri(s, codec), codec) == Ok(s)
  {
  }

  /**
   * Under the same hypotheses on both inputs, the bare-IRI path is injective:
   * two bare IRIs give equal nodes exactly when they are the same string.
   */
  lemma FromIriInjective(s1: string, s2: string, codec: Codec)
    requires |s1| > 0 && s1[0] != '<' && |s2| > 0 && s2[0] != '<'
    requires codec.unescape(codec.escapeIri(s1)) == s1
    requires codec.unescape(codec.escapeIri(s2)) == s2
    requires codec.unescape("") == ""
    ensures Equals(FromIri(s1, codec), IriNode(FromIri(s2, codec))) <==> s1 == s2
  {
    LabelRoundTrip(s1, codec);
    LabelRoundTrip(s2, codec);
  }

  // ---------------------------------------------------------------------
  // Identity: equals and hashCode

  /** equals is an equivalence relation on Resources. */
  lemma EqualsIsEquivalence(a: Resource, b: Resource, c: Resource)
    ensures Equals(a, IriNode(a))
    ensures Equals(a, IriNode(b)) <==> Equals(b, IriNode(a))
    ensures Equals(a, IriNode(b)) && Equals(b, IriNode(c)) ==> Equals(a, IriNode(c))
  {
  }

  /** Two Resources are equal exactly when their tokens are the same string. */
  lemma EqualsIffSameToken(a: Resource, b: Resource)
    ensures Equals(a, IriNode(b)) <==> a.data == b.data
  {
  }

  /** A Resource never equals a node of another kind, even one with the same text. */
  lemma EqualsOnlyResources(a: Resource, t: string)
    ensures !Equals(a, OtherNode(t))
  {
  }

  /** Equal Resources have equal hash codes, whatever the string hash is. */
  lemma HashConsistentWithEquals(a: Resource, b: Resource, stringHash: string -> Int32)
    requires Equals(a, IriNode(b))
    ensures HashCode(a, stringHash) == HashCode(b, stringHash)
  {
  }

  // ---------------------------------------------------------------------
  // Order: compareTo

  /** compareTo is zero exactly when the two toString strings are equal. */
  lemma CompareToZeroIff(a: Resource, n: Node)
    ensures CompareTo(a, n) == Equal <==> a.data == Text(n)
  {
  }

  /** Between Resources, compareTo is zero exactly when equals holds. */
  lemma CompareToConsistentWithEquals(a: Resource, b: Resource)
    ensures CompareTo(a, IriNode(b)) == Equal <==> Equals(a, IriNode(b))
  {
  }

  /**
   * Against another node kind the two disagree: a node whose toString is
   * the Resource's token compares as zero but is not equal.
   */
  lemma CompareToInconsistentAcrossKinds(a: Resource)
    ensures CompareTo(a, OtherNode(a.data)) == Equal
    ensures !Equals(a, OtherNode(a.data))
  {
  }

  /** compareTo is negative exactly when the documented lexicographic order puts a's token first. */
  lemma CompareToIsLexicographic(a: Resource, n: Node)
    ensures CompareTo(a, n) == Less <==> LexLess(a.data, Text(n))
  {
    CompareLessIsLexLess(a.data, Text(n));
  }

  /** Swapping two Resources flips the sign of compareTo. */
  lemma CompareToAntisymmetric(a: Resource, b: Resource)
    ensures CompareTo(b, IriNode(a)) == CompareTo(a, IriNode(b)).Flip()
  {
    CompareAntisymmetric(a.data, b.data);
  }

  /** compareTo is transitive across Resources and any final node. */
  lemma CompareToTransitive(a: Resource, b: Resource, n: Node)
    requires CompareTo(a, IriNode(b)) == Less && CompareTo(b, n) == Less
    ensures CompareTo(a, n) == Less
  {
    CompareLessTransitive(a.data, b.data, Text(n));
  }

  /** A Resource whose token is a proper prefix of the node's text sorts first. */
  lemma CompareToPrefixFirst(a: Resource, n: Node)
    requires |a.data| < |Text(n)| && a.data == Text(n)[..|a.data|]
    ensures CompareTo(a, n) == Less
  {
    PrefixSortsFirst(a.data, Text(n));
  }

  /** Two nodes built from the same bare IRI are equal, hash alike and compare as zero. */
  lemma SameIriSameNode(iri: string, codec: Codec, stringHash: string -> Int32)
    ensures Equals(FromIri(iri, codec), IriNode(FromIri(iri, codec)))
    ensures HashCode(FromIri(iri, codec), stringHash) == HashCode(FromIri(iri, codec), stringHash)
    ensures CompareTo(FromIri(iri, codec), IriNode(FromIri(iri, codec))) == Equal
  {
  }
}
