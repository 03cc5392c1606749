/**
 * The slice of a BioPAX level 3 object model that the pathway search reads.
 *
 * Parsed objects are immutable values here. Each variant carries only what the
 * search asks of it: the RDF identifier (used for ordering), the display name,
 * the components of a pathway, and the products (right-hand side) and
 * participant stoichiometry of a biochemical reaction.
 */
module Biopax {

  datatype Option<+T> = None | Some(value: T)

  /** A stoichiometric coefficient. It is carried through maps and never computed with. */
  type Coefficient = real

  /** A molecule or complex taking part in a reaction, identified by its RDF id. */
  datatype PhysicalEntity = PhysicalEntity(id: string, name: string)

  /** One participant of a reaction with its coefficient. */
  datatype Stoichiometry = Stoichiometry(entity: PhysicalEntity, coefficient: Coefficient)

  /**
   * A parsed BioPAX object.
   * - Pathway: a process made of sub-processes (pathways or interactions), in
   *   the order the object model yields them.
   * - Reaction: a BiochemicalReaction; `right` is the set of products and
   *   `participants` the participant stoichiometry, in iteration order.
   * - Entity: a physical entity appearing as an object of the model.
   * - Other: any other object (controls, transports, cross-references, ...).
   * Being an inductive datatype, the component graph is acyclic by construction.
   */
  datatype Element =
    | Pathway(id: string, name: string, components: seq<Element>)
    | Reaction(id: string, name: string, right: set<PhysicalEntity>, participants: seq<Stoichiometry>)
    | Entity(id: string, name: string)
    | Other(id: string)
}
