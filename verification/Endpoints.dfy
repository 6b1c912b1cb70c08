/** What the socket tables and the UDP sessions know of addresses and sockets. */
module Endpoints {
  type Handle = nat
  datatype Endpoint = Endpoint(address: nat, port: nat)
}
