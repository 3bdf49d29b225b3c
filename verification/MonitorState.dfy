/** The state of the monitor that the run loop and differential testing share. */
module MonitorState {
  import opened Words

  datatype RunState = STOP | RUNNING | END | ABORT

  datatype NemuState = NemuState(state: RunState, haltPc: word, haltRet: word)
}
