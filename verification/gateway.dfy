/** The gateway's start-up argument check (main.c): `<program> <port> <max_conn>`
    with the port and connection count already converted to integers. */
module Gateway {
  import opened Base
  import opened Config

  datatype ArgCheck =
    | Proceed(port: int, maxConn: int)
    | WrongArgCount
    | InvalidArguments

  /** The verdict of main's argument check: a wrong argument count is reported first;
      otherwise the port must be at least MIN_PORT and the connection count
      positive. */
  function CheckArguments(argc: int, port: int, maxConn: int): (r: ArgCheck)
    ensures r.Proceed? <==> argc == 3 && port >= MIN_PORT && maxConn > 0
    ensures r.Proceed? ==> r.port == port && r.maxConn == maxConn
    ensures r.WrongArgCount? <==> argc != 3
    ensures r.InvalidArguments? <==> argc == 3 && (port < MIN_PORT || maxConn <= 0)
  {
    if argc != 3 then WrongArgCount
    else if port < 1024 || maxConn <= 0 then InvalidArguments
    else Proceed(port, maxConn)
  }

  /** main's return value when its argument check stops it: -1 before any thread
      exists. */
  function ExitStatus(r: ArgCheck): (code: Option<int>)
    ensures code.None? <==> r.Proceed?
    ensures code.Some? ==> code.value == -1
  {
    if r.Proceed? then None else Some(-1)
  }

  /** main's argument check stops it with -1 exactly when the argument count is not
      3, the port is below MIN_PORT or the connection count is not positive; otherwise
      the check lets main go on with the values it was given. */
  lemma MainStopsEarly(argc: int, port: int, maxConn: int)
    ensures ExitStatus(CheckArguments(argc, port, maxConn)) == Some(-1) <==>
              argc != 3 || port < MIN_PORT || maxConn <= 0
    ensures ExitStatus(CheckArguments(argc, port, maxConn)).None? ==>
              CheckArguments(argc, port, maxConn) == Proceed(port, maxConn)
  {
  }
}
