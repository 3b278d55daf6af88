/** The two device calls the shader crate makes, `create_shader_module` and
    `destroy_shader_module`, as an abstract oracle. The device hands out
    handles from a counter and tracks which handles are live; whether it
    accepts a given bytecode is a parameter of the model. */
module Backend {
  import opened Wrappers
  import SpirvCodec

  type Word = SpirvCodec.Word

  /** A backend shader-module handle. */
  type Handle = nat

  /** The device's view of shader modules: the handles not yet destroyed,
      and the next handle it will give out. */
  datatype Device = Device(live: set<Handle>, next: Handle)

  /** Error reported by the backend when it refuses to create a module. */
  datatype CreateError = CreationFailed

  /** Every live handle was given out before `next`, so `next` is fresh. */
  ghost predicate Valid(d: Device) {
    forall h :: h in d.live ==> h < d.next
  }

  /** `create_shader_module`: a fresh live handle when `accepts` the bytecode,
      an error (and no change to the device) otherwise. */
  function CreateShaderModule(d: Device, spirv: seq<Word>, accepts: seq<Word> -> bool)
    : (r: Result<(Device, Handle), CreateError>)
    ensures r.Success? <==> accepts(spirv)
    ensures r.Success? ==> r.value.0.live == d.live + {r.value.1}
    ensures r.Success? && Valid(d) ==> r.value.1 !in d.live && Valid(r.value.0)
  {
    if accepts(spirv) then Success((Device(d.live + {d.next}, d.next + 1), d.next))
    else Failure(CreationFailed)
  }

  /** `destroy_shader_module`: the handle must be live (destroying it twice
      is a double free); afterwards it no longer is. */
  function DestroyShaderModule(d: Device, h: Handle): (d': Device)
    requires h in d.live
    ensures d'.live == d.live - {h}
    ensures Valid(d) ==> Valid(d')
  {
    Device(d.live - {h}, d.next)
  }
}
