/** The client record (createClient) and its structural check (validateClient). */
module Clients {

  /** A bank client, held by reference.  When an ATM session is bound to the
      roster's own object, a balance change made through the session is seen
      through the roster; setClient matches by name only, so a different
      object carrying a roster name is bound and credited instead.  The name
      is never written after creation, so it is a constant field. */
  class Client {
    const name: string
    var balance: int

    /** createClient(name, balance): with typed arguments it cannot fail. */
    constructor (name: string, balance: int)
      ensures this.name == name && this.balance == balance
    {
      this.name := name;
      this.balance := balance;
    }
  }

  /** validateClient: a typed Client always has a string name and an integer
      balance, so of the source's checks only the absent candidate remains. */
  predicate ValidateClient(candidate: Client?)
  {
    candidate != null
  }
}
