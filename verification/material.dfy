/** The serialisable material tag `MaterialType` and the shared material
    object (`Arc<dyn Material>`) it produces. The shading code of each
    material is not part of this model; only the parameters are. */
module Materials {
  import opened Options
  import opened Vectors

  datatype Lambertian = Lambertian(albedo: Vec3)
  datatype Metal = Metal(albedo: Vec3, fuzz: real)
  datatype Dielectric = Dielectric(ir: real)
  datatype BlinnPhong = BlinnPhong(diffuse: Vec3, specular: Vec3, shininess: real, lightDir: Vec3)
  datatype CookTorrance = CookTorrance(albedo: Vec3, roughness: real, metallic: real)
  /** A spherical area light: its radiance, and the sphere it sits on. */
  datatype Emissive = Emissive(color: Vec3, position: Vec3, radius: real)
  datatype Disney = Disney(baseColor: Vec3, metallic: real, roughness: real, specular: real,
                           specularTint: real, sheen: real, sheenTint: real,
                           clearcoat: real, clearcoatGloss: real)

  /** `MaterialType`: one variant per material, each carrying its parameters. */
  datatype MaterialType =
    | OfLambertian(lambertian: Lambertian)
    | OfMetal(metal: Metal)
    | OfDielectric(dielectric: Dielectric)
    | OfBlinnPhong(blinnPhong: BlinnPhong)
    | OfCookTorrance(cookTorrance: CookTorrance)
    | OfEmissive(emissive: Emissive)
    | OfDisney(disney: Disney)

  /** The material object a hit record points at: the concrete material
      behind `Arc<dyn Material>`, with its parameters. */
  datatype Material =
    | LambertianMaterial(Lambertian)
    | MetalMaterial(Metal)
    | DielectricMaterial(Dielectric)
    | BlinnPhongMaterial(BlinnPhong)
    | CookTorranceMaterial(CookTorrance)
    | EmissiveMaterial(Emissive)
    | DisneyMaterial(Disney)

  /** The tag a material object was made from. */
  function TagOf(m: Material): MaterialType {
    match m
    case LambertianMaterial(x) => OfLambertian(x)
    case MetalMaterial(x) => OfMetal(x)
    case DielectricMaterial(x) => OfDielectric(x)
    case BlinnPhongMaterial(x) => OfBlinnPhong(x)
    case CookTorranceMaterial(x) => OfCookTorrance(x)
    case EmissiveMaterial(x) => OfEmissive(x)
    case DisneyMaterial(x) => OfDisney(x)
  }

  /** `MaterialType::get_material`: a clone of the payload behind a shared
      pointer. The object keeps the variant and every parameter: reading its
      tag back gives the original. */
  function GetMaterial(t: MaterialType): (m: Material)
    ensures TagOf(m) == t
  {
    match t
    case OfLambertian(x) => LambertianMaterial(x)
    case OfMetal(x) => MetalMaterial(x)
    case OfDielectric(x) => DielectricMaterial(x)
    case OfBlinnPhong(x) => BlinnPhongMaterial(x)
    case OfCookTorrance(x) => CookTorranceMaterial(x)
    case OfEmissive(x) => EmissiveMaterial(x)
    case OfDisney(x) => DisneyMaterial(x)
  }

  /** Every material object comes from exactly one tag. */
  lemma GetMaterialOfTag(m: Material)
    ensures GetMaterial(TagOf(m)) == m
  {}

  /** `MaterialType::is_emissive`: true exactly for the `Emissive` variant. */
  function IsEmissive(t: MaterialType): (b: bool)
    ensures b <==> exists e :: t == OfEmissive(e)
  {
    assert t.OfEmissive? ==> t == OfEmissive(t.emissive);
    t.OfEmissive?
  }

  /** `MaterialType::get_emissive`: the payload of the `Emissive` variant,
      unchanged, and `None` for every other variant. */
  function GetEmissive(t: MaterialType): (r: Option<Emissive>)
    ensures r.Some? <==> IsEmissive(t)
    ensures forall e :: r == Some(e) <==> t == OfEmissive(e)
  {
    match t
    case OfEmissive(e) => Some(e)
    case _ => None
  }
}
