/** The process environment, as a map: `os.Getenv` gives "" for an unset variable. */
module Env {
  function Getenv(env: map<string, string>, key: string): (v: string)
    ensures key !in env ==> v == ""
    ensures key in env ==> v == env[key]
  {
    if key in env then env[key] else ""
  }
}
