/** The objects of the API that more than one controller or webhook handles. */
module Model {
  const NETGUARD_API := "netguard.sgroups.io/v1alpha1"

  datatype Key = Key(namespace: string, name: string)

  /** NamespacedObjectReference. */
  datatype ObjectRef = ObjectRef(apiVersion: string, kind: string, name: string, namespace: string)
  {
    /** The object a reference found in an object of the given namespace points at. */
    function Resolve(defaultNamespace: string): Key
    {
      Key(ResolveNamespace(namespace, defaultNamespace), name)
    }

    /** How the controllers compare references: by name and by the namespace as written. */
    predicate SameAs(other: ObjectRef)
    {
      name == other.name && namespace == other.namespace
    }
  }

  function ResolveNamespace(specNamespace: string, defaultNamespace: string): string
  {
    if specNamespace == "" then defaultNamespace else specNamespace
  }

  const PROTOCOL_TCP := "TCP"
  const PROTOCOL_UDP := "UDP"

  datatype IngressPort = IngressPort(protocol: string, port: string, description: string)

  datatype PortConfig = PortConfig(port: string, description: string)

  datatype ProtocolPorts = ProtocolPorts(tcp: seq<PortConfig>, udp: seq<PortConfig>)

  /** One entry of AddressGroupPortMapping.AccessPorts. */
  datatype ServicePortsRef = ServicePortsRef(ref: ObjectRef, ports: ProtocolPorts)
  {
    predicate IsFor(service: Key)
    {
      ref.name == service.name && ref.namespace == service.namespace
    }
  }

  /** deleting stands for a set deletion timestamp, here and below. */
  datatype Service = Service(
    key: Key,
    ingressPorts: seq<IngressPort>,
    addressGroups: seq<ObjectRef>,
    deleting: bool)

  /** AddressGroupPortMapping, stored under the key of its address group. */
  datatype PortMapping = PortMapping(items: seq<ServicePortsRef>, deleting: bool)

  /** AddressGroupBinding: its service is in its own namespace. */
  datatype Binding = Binding(key: Key, serviceName: string, addressGroup: ObjectRef, deleting: bool)
  {
    function ServiceKey(): Key
    {
      Key(key.namespace, serviceName)
    }

    function MappingKey(): Key
    {
      addressGroup.Resolve(key.namespace)
    }
  }
}
