/** `enum pm_state_e`: states by increasing power saving. */
module PowerStates {
  const PM_NORMAL := 0
  const PM_SLEEP := 3
  const STATES := 4
}
