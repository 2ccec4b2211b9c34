/** The switch object of stp.c, updated in place by its handlers; each is proved against StpSwitch. */
module StpObject {
  import opened Common
  import opened StpSwitch

  class Stp {
    const switchId: nat
    const ports: array<Config>
    var designatedRoot: nat
    var rootPathCost: nat
    var rootPort: Option<nat>
    var helloActive: bool

    /** The value this object stands for. */
    function State(): Switch
      reads this, ports
    {
      Switch(switchId, designatedRoot, rootPathCost, rootPort, ports[..], helloActive)
    }

    constructor (id: nat, nports: nat)
      ensures fresh(ports) && ports.Length == nports
      ensures State() == InitSwitch(id, nports)
    {
      switchId := id;
      designatedRoot := id;
      rootPathCost := 0;
      rootPort := None;
      helloActive := true;
      ports := new Config[nports](i requires 0 <= i => Config(id, 0, id, PortId(i)));
      new;
      assert ports[..] == InitSwitch(id, nports).ports;
    }

    predicate IsDesignated(i: nat)
      requires i < ports.Length
      reads this, ports
    {
      ports[i].sw == switchId && ports[i].port == PortId(i)
    }

    method UpdateStpStatus()
      requires ports.Length > 0
      modifies this
      ensures State() == old(State()).UpdateStatus()
    {
      var find, curRootId := true, -1;
      for i := 0 to ports.Length
        invariant -1 <= curRootId < i
        invariant old(State()).BestPort(i) == if curRootId == -1 then None else Some(curRootId as nat)
        invariant find == (i < ports.Length || curRootId != -1)
        invariant State() == old(State())
      {
        if !IsDesignated(i) {
          if curRootId == -1 {
            curRootId := i;
          } else if Better(ports[i], ports[curRootId]) {
            curRootId := i;
          }
        }
        if i == ports.Length - 1 && curRootId == -1 {
          find := false;
        }
      }
      if !find {
        rootPort := None;
        designatedRoot := switchId;
        rootPathCost := 0;
      } else {
        rootPort := Some(curRootId);
        designatedRoot := ports[curRootId].root;
        rootPathCost := ports[curRootId].cost + PATH_COST;
      }
    }

    method PortBeatsAll(p: nat) returns (r: bool)
      requires p < ports.Length
      ensures r == State().NoneBetter(p)
    {
      for i := 0 to ports.Length
        invariant forall j: nat :: j < i && !State().Designated(j) ==> !Better(State().ports[j], State().ports[p])
      {
        if !IsDesignated(i) && Better(ports[i], ports[p]) {
          assert !State().Designated(i) && Better(State().ports[i], State().ports[p]);
          return false;
        }
      }
      return true;
    }

    method UpdatePortConfig()
      modifies ports
      ensures State() == old(State()).UpdatePorts(ports.Length)
    {
      for i := 0 to ports.Length
        invariant State() == old(State()).UpdatePorts(i)
      {
        if IsDesignated(i) {
          ports[i] := ports[i].(root := designatedRoot, cost := rootPathCost);
        } else {
          var beatsAll := PortBeatsAll(i);
          if rootPort != Some(i) && beatsAll {
            ports[i] := ports[i].(sw := switchId, port := PortId(i));
          }
        }
      }
    }

    /** stp_port_send_config; frames leaving an ALTERNATE port are dropped by the device layer. */
    method PortSendConfig(i: nat) returns (sent: seq<Sent>)
      requires i < ports.Length
      ensures sent == State().SendOn(i)
    {
      if designatedRoot != switchId && rootPort.None? {
        return [];
      }
      var config := Config(designatedRoot, rootPathCost, switchId, PortId(i));
      if rootPort != Some(i) && !IsDesignated(i) {
        return [];
      }
      return [Sent(i, config)];
    }

    method SendConfig() returns (sent: seq<Sent>)
      ensures sent == State().SendAll(ports.Length)
    {
      sent := [];
      for i := 0 to ports.Length
        invariant sent == State().SendAll(i)
      {
        if IsDesignated(i) {
          var one := PortSendConfig(i);
          sent := sent + one;
        }
      }
    }

    method HandleConfigPacket(p: nat, config: Config) returns (sent: seq<Sent>)
      requires p < ports.Length
      modifies this, ports
      ensures State() == old(State()).Handle(p, config)
      ensures sent == old(State()).HandleSends(p, config)
    {
      if Better(config, ports[p]) {
        ports[p] := config;
        UpdateStpStatus();
        UpdatePortConfig();
        if designatedRoot != switchId {
          helloActive := false;
        }
        sent := SendConfig();
      } else {
        sent := PortSendConfig(p);
      }
    }

    /** stp_handle_hello_timeout, when the timer runs out: it sends and starts the timer again. */
    method HelloTimeout() returns (sent: seq<Sent>)
      requires helloActive
      modifies this
      ensures State() == old(State())
      ensures sent == State().SendAll(ports.Length)
    {
      sent := SendConfig();
      helloActive := true;
      assert State() == old(State());
    }
  }
}
