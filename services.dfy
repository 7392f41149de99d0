/** The nine lookup services a backend may register, and the names they
    carry on the wire. */
module Services {
  import opened CText

  datatype Service =
    | Alias | Domain | Credentials | Netaddr | Userinfo
    | Source | Mailaddr | Addrname | Mailaddrmap

  /** The wire name of a service kind, as sent in every request for it. */
  function ServiceName(k: Service): (s: CString)
    ensures s != "ready"
    ensures '|' !in s && '\n' !in s
  {
    match k
    case Alias => "alias"
    case Domain => "domain"
    case Credentials => "credentials"
    case Netaddr => "netaddr"
    case Userinfo => "userinfo"
    case Source => "source"
    case Mailaddr => "mailaddr"
    case Addrname => "addrname"
    case Mailaddrmap => "mailaddrmap"
  }

  /** The service a registration names, tried in the order the handshake
      compares them; `None` for a name that is none of the nine. */
  function ServiceOf(name: string): (k: Option<Service>)
    ensures k.Some? ==> ServiceName(k.value) == name
    ensures forall j :: ServiceName(j) == name ==> k == Some(j)
  {
    if name == "alias" then Some(Alias)
    else if name == "domain" then Some(Domain)
    else if name == "credentials" then Some(Credentials)
    else if name == "netaddr" then Some(Netaddr)
    else if name == "userinfo" then Some(Userinfo)
    else if name == "source" then Some(Source)
    else if name == "mailaddr" then Some(Mailaddr)
    else if name == "addrname" then Some(Addrname)
    else if name == "mailaddrmap" then Some(Mailaddrmap)
    else None
  }
}
