/** Shared record shapes of the REST client. */
module Types {

  /** The seven request methods the method selector offers. */
  datatype HttpMethod = GET | POST | PUT | PATCH | DELETE | HEAD | OPTIONS

  /** The selector's list of methods, in display order. */
  const Methods: seq<HttpMethod> := [GET, POST, PUT, PATCH, DELETE, HEAD, OPTIONS]

  /** The selector lists every method exactly once. */
  lemma MethodsListEachOnce()
    ensures |Methods| == 7
    ensures forall m: HttpMethod :: m in Methods
    ensures forall i, j :: 0 <= i < j < |Methods| ==> Methods[i] != Methods[j]
  {
    forall m: HttpMethod ensures m in Methods {
      match m
      case GET => assert Methods[0] == m;
      case POST => assert Methods[1] == m;
      case PUT => assert Methods[2] == m;
      case PATCH => assert Methods[3] == m;
      case DELETE => assert Methods[4] == m;
      case HEAD => assert Methods[5] == m;
      case OPTIONS => assert Methods[6] == m;
    }
  }

  /** One row of the header editor; `id` only identifies the row in the UI. */
  datatype Header = Header(id: int, key: string, value: string, enabled: bool)
}
