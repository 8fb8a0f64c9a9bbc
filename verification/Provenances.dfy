/** Where a fact in the graph came from. */
module Provenances {

  datatype Provenance = Derived | Authored | Inferred | ExternalDerived | ExternalAuthored | ExternalInferred {
    /** The token a store keeps, and orders by. */
    function Token(): string {
      match this
      case Derived => "derived"
      case Authored => "authored"
      case Inferred => "inferred"
      case ExternalDerived => "external-derived"
      case ExternalAuthored => "external-authored"
      case ExternalInferred => "external-inferred"
    }
  }
}
