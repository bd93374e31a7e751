/** The static list of bookable consulting services, seeded at start-up
    and never changed. */
module Catalogue {
  import opened Optional

  datatype Service = Service(id: int, name: string, duration: nat, price: int)

  const Services: seq<Service> := [
    Service(1, "Medical Consultation", 30, 500),
    Service(2, "Business Advisory", 60, 1000),
    Service(3, "Legal Consultation", 45, 750),
    Service(4, "Financial Planning", 60, 1200)
  ]

  /** Some service in the catalogue has this name and this duration. */
  ghost predicate Offers(name: string, duration: nat)
  {
    exists i :: 0 <= i < |Services| && Services[i].name == name && Services[i].duration == duration
  }

  /** First entry of `services` whose id equals `id`, as `Array.find` does. */
  function FindIn(services: seq<Service>, id: int): (r: Option<Service>)
    ensures r.None? <==> forall i :: 0 <= i < |services| ==> services[i].id != id
    ensures r.Some? ==> exists i :: 0 <= i < |services| && services[i] == r.value
                                    && forall j :: 0 <= j < i ==> services[j].id != id
    ensures r.Some? ==> r.value.id == id
  {
    if services == [] then None
    else if services[0].id == id then Some(services[0])
    else
      var r := FindIn(services[1..], id);
      assert r.Some? ==> exists i :: 1 <= i < |services| && services[i] == r.value
                                    && forall j :: 0 <= j < i ==> services[j].id != id by {
        if r.Some? {
          var k :| 0 <= k < |services[1..]| && services[1..][k] == r.value
                   && forall j :: 0 <= j < k ==> services[1..][j].id != id;
          assert services[k + 1] == r.value;
        }
      }
      r
  }

  /** The catalogue lookup of the booking handler (`services.find(s => s.id == serviceId)`). */
  function Find(id: int): (r: Option<Service>)
    ensures r.Some? ==> r.value in Services && r.value.id == id
    ensures r.Some? ==> Offers(r.value.name, r.value.duration)
  {
    FindIn(Services, id)
  }

  /** Exactly the ids 1 to 4 are bookable, each with its own entry. */
  lemma FindKnownIds(id: int)
    ensures Find(id).Some? <==> 1 <= id <= 4
    ensures Find(id).Some? ==> Find(id).value == Services[id - 1]
  {
    if 1 <= id <= 4 {
      assert Services[id - 1].id == id;
    }
  }
}
