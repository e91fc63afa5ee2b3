/** The plain records of the problem: facilities, clients, and the data a
    network is built over (src/facility.py, src/client.py). */
module Entities {

  /** A facility: 1-based id, capacity and opening cost. */
  datatype Facility = Facility(id: nat, capacity: real, costOpen: real)

  /** A client: 1-based id and demand. */
  datatype Client = Client(id: nat, demand: real)

  /** What a network reads from the importer: the facilities, the clients and
      the client x facility cost matrix. Facility `f` (0-based) has id f+1 and
      is column `f`; client `c` has id c+1 and is row `c`. An over-long last
      demand line can yield more clients than cost rows. */
  datatype Instance = Instance(facilities: seq<Facility>, clients: seq<Client>, cost: seq<seq<real>>)
  {
    ghost predicate Valid()
    {
      && |facilities| >= 1
      && (forall f :: 0 <= f < |facilities| ==> facilities[f].id == f + 1)
      && (forall c :: 0 <= c < |clients| ==> clients[c].id == c + 1)
      && |cost| <= |clients|
      && (forall c :: 0 <= c < |cost| ==> |cost[c]| == |facilities|)
    }
  }
}
