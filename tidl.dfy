/** The host-visible contract of the TIDL runtime as the dispatch code uses it:
    device categories, execution objects (EOs), executors, two-stage
    execution-object pipelines (EOPs) and the buffer sizes a slot reports.
    The runtime's internals are not modelled; only these values are. */
module Tidl {

  datatype Option<T> = None | Some(value: T)

  /** The two accelerator categories of the SoC. */
  datatype DeviceType = EVE | DSP

  /** An execution object: the `index`-th EO of the executor built for `device`.
      Each program builds at most one executor per device type, so the pair
      identifies the EO. */
  datatype EO = EO(device: DeviceType, index: nat)

  /** An executor over the device ids `ids`; the runtime gives it one
      execution object per device id, `numEOs` of them. */
  datatype Executor = Executor(device: DeviceType, ids: set<nat>, numEOs: nat)

  /** A two-stage pipeline { EVE first, EVE second } of EO indices of the EVE executor. */
  datatype Pipeline = Pipeline(first: nat, second: nat)

  /** Input and output buffer sizes in bytes that a slot reports
      (GetInputBufferSizeInBytes / GetOutputBufferSizeInBytes). */
  datatype BufferSizes = BufferSizes(input: nat, output: nat)

  /** Per-slot job state seen from the host. */
  datatype SlotState = Idle | Issued

  /** How `main` ends: an exit status, or undefined behaviour (an integer
      modulo by zero, after which C++ defines no outcome). */
  datatype ExitCode = ExitSuccess | ExitFailure | Undefined
}
