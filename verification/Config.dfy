/** The hosts of the configuration (config/config.go). */
module Config {

  datatype HostConfig = HostConfig(name: string, within: int, disabled: bool)

  /** The names of the hosts that are not disabled, in order. */
  function Enabled(hosts: seq<HostConfig>): seq<string> {
    if hosts == [] then []
    else
      var last := hosts[|hosts| - 1];
      Enabled(hosts[..|hosts| - 1]) + if last.disabled then [] else [last.name]
  }

  lemma {:induction false} EnabledHas(hosts: seq<HostConfig>, name: string)
    ensures name in Enabled(hosts) <==> exists h :: h in hosts && !h.disabled && h.name == name
  {
    if hosts != [] {
      EnabledHas(hosts[..|hosts| - 1], name);
      assert hosts == hosts[..|hosts| - 1] + [hosts[|hosts| - 1]];
    }
  }
}
