/** The block store the builder works through: content-addressed, and free to drop blocks. */
module NodeStores {
  import opened Base
  import opened Dag

  class NodeStore {
    var held: set<Cid>
    /** Whether adding a block leaves the other blocks in place, as an unbounded store does. */
    const roomy: bool

    constructor (roomy: bool)
      ensures held == {} && this.roomy == roomy
    {
      held, this.roomy := {}, roomy;
    }

    method Get(c: Cid) returns (r: Option<Node>)
      ensures r == if c in held && c.Of? then Some(c.node) else None
    {
      r := if c in held && c.Of? then Some(c.node) else None;
    }

    /** Drops any blocks at all. */
    method Evict()
      modifies this
      ensures held <= old(held)
    {
      var rest: set<Cid> :| rest <= held;
      held := rest;
    }

    method Add(n: Node)
      modifies this
      ensures held <= old(held) + {Of(n)}
      ensures roomy ==> held == old(held) + {Of(n)}
    {
      held := held + {Of(n)};
      if !roomy {
        Evict();
      }
    }
  }
}
