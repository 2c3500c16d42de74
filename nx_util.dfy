/**
 * The IRI escaper and unescaper of org.semanticweb.yars.nx.util.NxUtil.
 * Their bodies are not part of this model, so a node operation that needs
 * them takes a `Codec` argument; any law relating the two is a hypothesis of
 * the lemma that uses it.
 */
module NxUtil {

  /** `escapeIri` stands for NxUtil.escapeIRI, `unescape` for NxUtil.unescape. */
  datatype Codec = Codec(escapeIri: string -> string, unescape: string -> string)

  /** The codec that changes nothing, used to exhibit concrete behaviour. */
  function Identity(): (c: Codec)
    ensures forall s :: c.escapeIri(s) == s && c.unescape(s) == s
  {
    Codec(s => s, s => s)
  }
}
