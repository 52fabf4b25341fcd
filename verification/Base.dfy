/** Types and constants shared by the kernel components. */
module Base {

  datatype Option<+T> = None | Some(value: T)

  datatype Result<+T> = Ok(value: T) | Err(errno: int)

  type byte = x: int | 0 <= x < 256

  const U32: int := 0x1_0000_0000

  /** A WebAssembly page (section 4.2.8 of the WebAssembly Core Specification 1.0). */
  const PAGE_SIZE: nat := 64 * 1024

  function Min(a: int, b: int): int { if a < b then a else b }
  function Max(a: int, b: int): int { if a < b then b else a }

  // errno values, returned negated (src/errno.rs)
  const ENOENT := 2
  const EBADF := 9
  const ECHILD := 10
  const EAGAIN := 11
  const ENOMEM := 12
  const EACCES := 13
  const EFAULT := 14
  const ENOTDIR := 20
  const EINVAL := 22
  const ESPIPE := 29
  const ENOSYS := 38
  const ETIMEDOUT := 110
}
