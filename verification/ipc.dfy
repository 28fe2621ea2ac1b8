/**
 * The constants and the socket location shared by the daemon and its
 * clients (ipc.hpp).
 */
module Ipc {
  import opened Wrappers
  import Text

  /** The field separator of every message: the single byte 0x1F. */
  const Delimiter: char := '\U{1F}'

  const SocketName: string := "/bsh.sock"
  const FallbackPrefix: string := "/tmp/bsh_"
  const SocketSuffix: string := ".sock"

  /**
   * get_socket_path: `$XDG_RUNTIME_DIR/bsh.sock` when the variable is set
   * (even to the empty string), otherwise `/tmp/bsh_<uid>.sock`. The
   * environment lookup and the user id are parameters.
   */
  function SocketPath(runtimeDir: Option<string>, uid: nat): (path: string)
    ensures runtimeDir.Some? ==> path == runtimeDir.value + SocketName
    ensures runtimeDir == Some("") ==> path == "/bsh.sock"
    ensures runtimeDir.None? ==> path == FallbackPrefix + Text.Decimal(uid) + SocketSuffix
    ensures |path| >= |SocketSuffix| && path[|path| - |SocketSuffix|..] == SocketSuffix
  {
    match runtimeDir
    case Some(dir) =>
      var path := dir + SocketName;
      assert path[|path| - |SocketSuffix|..] == SocketSuffix;
      path
    case None =>
      var path := FallbackPrefix + Text.Decimal(uid) + SocketSuffix;
      assert path[|path| - |SocketSuffix|..] == SocketSuffix;
      path
  }

  /** Without XDG_RUNTIME_DIR, different users get different sockets. */
  lemma FallbackPathsDistinct(uid1: nat, uid2: nat)
    requires uid1 != uid2
    ensures SocketPath(None, uid1) != SocketPath(None, uid2)
  {
    var d1, d2 := Text.Decimal(uid1), Text.Decimal(uid2);
    if SocketPath(None, uid1) == SocketPath(None, uid2) {
      var p1 := FallbackPrefix + d1 + SocketSuffix;
      var p2 := FallbackPrefix + d2 + SocketSuffix;
      assert |d1| == |d2|;
      assert d1 == p1[|FallbackPrefix|..|FallbackPrefix| + |d1|];
      assert d2 == p2[|FallbackPrefix|..|FallbackPrefix| + |d2|];
      Text.DecimalInjective(uid1, uid2);
    }
  }
}
