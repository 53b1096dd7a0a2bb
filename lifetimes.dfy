/**
 * Lifetimes: the container's own enum and the conversion from the Microsoft dependency
 * injection abstractions' ServiceLifetime.
 */
module Lifetimes {

  /** Faster.Ioc.Contracts.Lifetime */
  datatype Lifetime = Singleton | Scoped | Transient

  /** Microsoft.Extensions.DependencyInjection.ServiceLifetime: an enum, so any int may
      be cast to it; the named members are Singleton = 0, Scoped = 1, Transient = 2. */
  newtype ServiceLifetime = int

  const ServiceSingleton: ServiceLifetime := 0
  const ServiceScoped: ServiceLifetime := 1
  const ServiceTransient: ServiceLifetime := 2

  /** ServiceLifetimeExtensions.Convert: Scoped and Singleton map to their namesakes,
      every other value to Transient. */
  function Convert(lifetime: ServiceLifetime): (r: Lifetime)
    ensures r == Scoped <==> lifetime == ServiceScoped
    ensures r == Singleton <==> lifetime == ServiceSingleton
    ensures r == Transient <==> lifetime != ServiceScoped && lifetime != ServiceSingleton
  {
    if lifetime == ServiceScoped then Scoped
    else if lifetime == ServiceSingleton then Singleton
    else Transient
  }

  /** On the three named members the conversion is one to one and reaches every
      Lifetime. */
  lemma {:induction false} ConvertBijective(a: ServiceLifetime, b: ServiceLifetime, l: Lifetime)
    requires a in {ServiceSingleton, ServiceScoped, ServiceTransient}
    requires b in {ServiceSingleton, ServiceScoped, ServiceTransient}
    ensures Convert(a) == Convert(b) ==> a == b
    ensures exists s :: s in {ServiceSingleton, ServiceScoped, ServiceTransient} && Convert(s) == l
  {
    match l
    case Singleton => assert Convert(ServiceSingleton) == l;
    case Scoped => assert Convert(ServiceScoped) == l;
    case Transient => assert Convert(ServiceTransient) == l;
  }
}
