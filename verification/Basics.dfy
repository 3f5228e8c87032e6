/** Optional values, bytes and vectors, and the C constants that several parts of the model use. */
module Basics {

  datatype Option<T> = None | Some(value: T)

  type Byte = x: nat | x < 256

  datatype Vec3 = Vec3(x: real, y: real, z: real) {
    function At(i: nat): real
      requires i < 3
    {
      if i == 0 then x else if i == 1 then y else z
    }
  }

  const INT_MIN: int := -0x8000_0000
  const INT_MAX: int := 0x7fff_ffff

  // Values of errno.
  const EINTR: int := 4
  const EBADF: int := 9
  const ENOMEM: int := 12
  const EEXIST: int := 17
  const EINVAL: int := 22
}
