/** Resolution of a service's backend port to the NodePort the load balancer targets. */
module Services {
  import opened Entities

  datatype ServiceType =
    | ServiceTypeClusterIP
    | ServiceTypeNodePort
    | ServiceTypeLoadBalancer
    | ServiceTypeExternalName

  datatype ServicePort = ServicePort(port: int32, nodePort: int32)

  datatype Service = Service(serviceType: ServiceType, ports: seq<ServicePort>)

  /** The three ways a lookup fails; each names the service key. */
  datatype NodePortError =
    | ServiceNotFound(key: string)
    | NotNodePort(key: string)
    | PortNotFound(key: string)

  datatype Result<+T, +E> = Ok(value: T) | Err(error: E)

  /** `GetServiceNodePort`: the service store is a map from namespace/name to service. The lookup
      fails when the service is missing, when it is not of type NodePort, or when no port equals
      `backendPort`; otherwise it gives the NodePort of the first port equal to `backendPort`. */
  method GetServiceNodePort(services: map<string, Service>, serviceKey: string, backendPort: int32)
    returns (r: Result<int64, NodePortError>)
    ensures r == Err(ServiceNotFound(serviceKey)) <==> serviceKey !in services
    ensures r == Err(NotNodePort(serviceKey)) <==>
      serviceKey in services && services[serviceKey].serviceType != ServiceTypeNodePort
    ensures r == Err(PortNotFound(serviceKey)) <==>
      serviceKey in services && services[serviceKey].serviceType == ServiceTypeNodePort &&
      forall p :: p in services[serviceKey].ports ==> p.port != backendPort
    ensures r.Err? ==> r.error.key == serviceKey
    ensures r.Ok? <==>
      serviceKey in services && services[serviceKey].serviceType == ServiceTypeNodePort &&
      exists p :: p in services[serviceKey].ports && p.port == backendPort
    ensures r.Ok? ==>
      serviceKey in services && services[serviceKey].serviceType == ServiceTypeNodePort &&
      exists i :: 0 <= i < |services[serviceKey].ports| &&
        services[serviceKey].ports[i].port == backendPort &&
        r.value == services[serviceKey].ports[i].nodePort as int64 &&
        forall j :: 0 <= j < i ==> services[serviceKey].ports[j].port != backendPort
  {
    if serviceKey !in services {
      return Err(ServiceNotFound(serviceKey));
    }
    var item := services[serviceKey];
    if item.serviceType != ServiceTypeNodePort {
      return Err(NotNodePort(serviceKey));
    }
    var k := 0;
    while k < |item.ports|
      invariant 0 <= k <= |item.ports|
      invariant forall j :: 0 <= j < k ==> item.ports[j].port != backendPort
    {
      var p := item.ports[k];
      if p.port == backendPort {
        return Ok(p.nodePort as int64);
      }
      k := k + 1;
    }
    return Err(PortNotFound(serviceKey));
  }
}
