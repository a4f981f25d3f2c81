/** The built-in rules (`rules/default.yaml`); label settings are read by the tunnel rule alone. */
module BuiltinRules {
  import opened Ints
  import opened RuleSpec

  function ScanRule(highEntropy: bytes -> bool): Rule {
    Rule("port-scan", PortScan, High, 10_000_000, 100, 15_000_000, 30, highEntropy)
  }

  function SweepRule(highEntropy: bytes -> bool): Rule {
    Rule("host-sweep", HostSweep, Medium, 30_000_000, 64, 30_000_000, 30, highEntropy)
  }

  function TunnelRule(highEntropy: bytes -> bool): Rule {
    Rule("dns-tunnel", DnsTunnel, Critical, 30_000_000, 20, 15_000_000, 30, highEntropy)
  }

  function FloodRule(highEntropy: bytes -> bool): Rule {
    Rule("packet-flood", PacketRate, Medium, 1_000_000, 5_000, 30_000_000, 30, highEntropy)
  }

  function AllBuiltin(highEntropy: bytes -> bool): seq<Rule> {
    [ScanRule(highEntropy), SweepRule(highEntropy), TunnelRule(highEntropy), FloodRule(highEntropy)]
  }
}
