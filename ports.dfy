/** The messages the glue layer sends into the hosted application's ports. */
module Ports {
  import JsNumbers

  datatype PortMessage =
    | CtrlZPressed                                         // the undo signal, without payload
    | MovingDownFinished(containerId: JsNumbers.Number)    // a move down has finished
    | MovingUpFinished(containerId: JsNumbers.Number)      // a move up has finished
}
