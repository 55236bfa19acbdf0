/** The ingress-class filter: which ingresses this controller manages. */
module Filter {
  import opened Entities

  const IngressClassAnnotation := "kubernetes.io/ingress.class"

  /** A Go map lookup: a missing annotation reads as the empty string. */
  function ClassAnnotation(ing: Ingress): string
  {
    if IngressClassAnnotation in ing.annotations then ing.annotations[IngressClassAnnotation] else ""
  }

  /** `validIngress`: with no class configured every ingress is managed; otherwise only those whose
      class annotation is present and equals the configured class exactly. */
  function ValidIngress(ingressClass: string, ing: Ingress): (managed: bool)
    ensures managed <==>
      ingressClass == "" ||
      (IngressClassAnnotation in ing.annotations && ing.annotations[IngressClassAnnotation] == ingressClass)
  {
    if ingressClass == "" then true
    else if ClassAnnotation(ing) == ingressClass then true
    else false
  }
}
